/** Whole-run meaning of the EKF flag, of the failsafe timer and of the acted-on mask. */
module FailsafeRuns {
  import opened EkfCounter
  import opened RoverModel
  import opened RoverRuns

  /* ---- the EKF flag against the history of checks ---- */

  /** The check runs for an armed rover, with an origin and a positive threshold. */
  predicate Counts(cfg: Config, s: State, sens: Sensors) {
    sens.haveOrigin && (s.armed || !cfg.armingRequired) && cfg.ekfThresh > 0.0
  }

  /** The check finds an origin, but the rover disarmed or itself disabled. */
  predicate Resets(cfg: Config, s: State, sens: Sensors) {
    sens.haveOrigin && ((!s.armed && cfg.armingRequired) || cfg.ekfThresh <= 0.0)
  }

  /** Results of the armed checks since the last reset or the last fall of the flag, oldest first. */
  ghost function CheckLog(cfg: Config, run: seq<Event>): seq<bool> {
    if run == [] then []
    else
      var p := run[..|run| - 1];
      var s := After(cfg, p);
      match run[|run| - 1]
      case EkfCheckEvent(sens) =>
        if Resets(cfg, s, sens) then []
        else if !Counts(cfg, s, sens) then CheckLog(cfg, p)
        else if s.ekf && !After(cfg, run).ekf then []
        else CheckLog(cfg, p) + [EkfOverThreshold(cfg, s, sens)]
      case _ => CheckLog(cfg, p)
  }

  /** A check while disarmed or disabled clears the count, the flag and the failsafe and touches nothing
      else; a check without an origin touches nothing at all. */
  lemma ResetExactly(cfg: Config, s: State, sens: Sensors)
    ensures Resets(cfg, s, sens) ==>
              Step(cfg, s, EkfCheckEvent(sens)) == s.(counter := Counter(0, false), ekf := false)
    ensures !sens.haveOrigin ==> Step(cfg, s, EkfCheckEvent(sens)) == s
  {
  }

  /** Number of EKF checks in a run. */
  function Checks(run: seq<Event>): nat {
    if run == [] then 0 else Checks(run[..|run| - 1]) + (if run[|run| - 1].EkfCheckEvent? then 1 else 0)
  }

  /** However the run goes on after a reset, no failsafe is raised before ten more checks. */
  lemma {:induction false} QuietAfterReset(cfg: Config, run: seq<Event>, sens: Sensors, later: seq<Event>)
    requires Resets(cfg, After(cfg, run), sens) && Checks(later) < 10
    ensures var s := After(cfg, run + [EkfCheckEvent(sens)] + later);
            !s.ekf && !s.counter.bad && s.counter.failCount <= Checks(later)
  {
    var head := run + [EkfCheckEvent(sens)];
    if later == [] {
      assert head + later == head;
      AfterOneMore(cfg, run, EkfCheckEvent(sens));
      ResetExactly(cfg, After(cfg, run), sens);
    } else {
      var e, before := later[|later| - 1], later[..|later| - 1];
      assert head + later == (head + before) + [e];
      AfterOneMore(cfg, head + before, e);
      QuietAfterReset(cfg, run, sens, before);
      StepStaysQuiet(cfg, After(cfg, head + before), e);
    }
  }

  lemma StepStaysQuiet(cfg: Config, s: State, e: Event)
    requires !s.ekf && !s.counter.bad && (e.EkfCheckEvent? ==> s.counter.failCount < 9)
    ensures var r := Step(cfg, s, e);
            !r.ekf && !r.counter.bad && r.counter.failCount <= s.counter.failCount + (if e.EkfCheckEvent? then 1 else 0)
  {
    match e
    case TriggerEvent(c, sens) => TriggerKeeps(cfg, s, c, sens);
    case BatteryEvent(action, sens, _) => TryKeeps(cfg, s, Candidates(action), Failsafe, sens);
    case _ =>
  }

  /** The flag rose at the k-th check of `h`; the count is ten minus the good checks since. */
  ghost predicate UpSince(h: seq<bool>, c: Counter, k: nat) {
    k <= |h| && JustRaised(h[..k]) && c.failCount == 10 - Goods(h[k..])
  }

  /** What a counter must be after the checks `h`. */
  ghost predicate Explains(h: seq<bool>, c: Counter) {
    if c.bad then exists k :: UpSince(h, c, k)
    else Quiet(h) && c == Run(CLEAR, h)
  }

  lemma NothingLogged()
    ensures Explains([], CLEAR)
  {
    forall i, j | 0 <= i <= j <= 0 ensures Excess([][i..j]) < 10 {}
  }

  lemma CheckExplained(h: seq<bool>, c: Counter, x: bool)
    requires Explains(h, c) && !(c.bad && !Check(c, x).bad)
    requires c.bad ==> c.failCount > 0
    ensures Explains(h + [x], Check(c, x))
  {
    var g := h + [x];
    assert g[..|g| - 1] == h;
    if c.bad {
      var k: nat :| UpSince(h, c, k);
      assert g[..k] == h[..k];
      var tail := h[k..] + [x];
      assert g[k..] == tail && tail[..|tail| - 1] == h[k..];
      assert UpSince(g, Check(c, x), k);
    } else {
      FlagRaisedExactlyWhen(h, x);
      assert Run(CLEAR, g) == Check(c, x);
      if Check(c, x).bad {
        assert g[..|g|] == g && g[|g|..] == [];
        assert UpSince(g, Check(c, x), |g|);
      }
    }
  }

  /** In every run: while the flag is down no stretch of the logged checks has ten more
      over-threshold checks than good ones; while it is up it was raised by the first such
      stretch and fail_count is ten minus the good checks since. */
  lemma {:induction false} FlagFollowsHistory(cfg: Config, run: seq<Event>)
    ensures Explains(CheckLog(cfg, run), After(cfg, run).counter)
  {
    if run == [] {
      NothingLogged();
    } else {
      var p, e := run[..|run| - 1], run[|run| - 1];
      FlagFollowsHistory(cfg, p);
      EveryRunKeepsInv(cfg, p);
      NothingLogged();
      var s := After(cfg, p);
      match e
      case EkfCheckEvent(sens) => CheckLogged(cfg, s, CheckLog(cfg, p), sens);
      case _ => CounterUntouched(cfg, s, e);
    }
  }

  /** One check: the log is emptied, kept or extended, and still explains the counter. */
  lemma CheckLogged(cfg: Config, s: State, log: seq<bool>, sens: Sensors)
    requires Inv(s) && Explains(log, s.counter)
    ensures var r := Step(cfg, s, EkfCheckEvent(sens));
            Explains(if Resets(cfg, s, sens) then []
                     else if !Counts(cfg, s, sens) then log
                     else if s.ekf && !r.ekf then []
                     else log + [EkfOverThreshold(cfg, s, sens)], r.counter)
  {
    NothingLogged();
    if Counts(cfg, s, sens) {
      var over := EkfOverThreshold(cfg, s, sens);
      StepKeepsInv(cfg, s, EkfCheckEvent(sens));
      if !(s.counter.bad && !Check(s.counter, over).bad) {
        CheckExplained(log, s.counter, over);
      }
    }
  }

  lemma CounterUntouched(cfg: Config, s: State, e: Event)
    requires !e.EkfCheckEvent?
    ensures Step(cfg, s, e).counter == s.counter
  {
    match e
    case TriggerEvent(c, sens) => TriggerKeeps(cfg, s, c, sens);
    case BatteryEvent(action, sens, _) => TryKeeps(cfg, s, Candidates(action), Failsafe, sens);
    case _ =>
  }

  /** While the flag is down fail_count is the largest suffix excess of the logged checks. */
  lemma CountIsMaxExcessOfLog(cfg: Config, run: seq<Event>)
    requires !After(cfg, run).ekf
    ensures IsMaxSuffixExcess(CheckLog(cfg, run), After(cfg, run).counter.failCount)
  {
    EveryRunKeepsInv(cfg, run);
    FlagFollowsHistory(cfg, run);
    CountIsMaxSuffixExcess(CheckLog(cfg, run));
  }

  /** A counting check raises the failsafe exactly when it completes a stretch of ten. */
  lemma FailsafeRaisedExactlyWhen(cfg: Config, run: seq<Event>, sens: Sensors)
    requires var s := After(cfg, run); !s.ekf && Counts(cfg, s, sens)
    ensures var s := After(cfg, run);
            Step(cfg, s, EkfCheckEvent(sens)).ekf <==> BadSuffix(CheckLog(cfg, run) + [EkfOverThreshold(cfg, s, sens)])
  {
    var s, h := After(cfg, run), CheckLog(cfg, run);
    EveryRunKeepsInv(cfg, run);
    FlagFollowsHistory(cfg, run);
    StepKeepsInv(cfg, s, EkfCheckEvent(sens));
    var x := EkfOverThreshold(cfg, s, sens);
    FlagRaisedExactlyWhen(h, x);
    assert (h + [x])[..|h|] == h;
  }

  /** A counting check clears the failsafe exactly when it is the tenth good one since the flag
      went up at check `k` of the log. */
  lemma FailsafeClearedExactlyWhen(cfg: Config, run: seq<Event>, sens: Sensors) returns (k: nat)
    requires var s := After(cfg, run); s.ekf && Counts(cfg, s, sens)
    ensures k <= |CheckLog(cfg, run)| && JustRaised(CheckLog(cfg, run)[..k])
    ensures var s := After(cfg, run);
            !Step(cfg, s, EkfCheckEvent(sens)).ekf <==>
            !EkfOverThreshold(cfg, s, sens) && Goods(CheckLog(cfg, run)[k..]) == 9
  {
    EveryRunKeepsInv(cfg, run);
    FlagFollowsHistory(cfg, run);
    var s := After(cfg, run);
    StepKeepsInv(cfg, s, EkfCheckEvent(sens));
    k :| UpSince(CheckLog(cfg, run), s.counter, k);
  }

  /* ---- the episode timer ---- */

  lemma MasksOnlyByTrigger(cfg: Config, s: State, e: Event)
    ensures var r := Step(cfg, s, e);
            match e
            case TriggerEvent(c, _) =>
              var m := MaskedState(s, c);
              && r.bits == m.bits && r.startTime == m.startTime
              && r.triggered == if Fires(cfg, s, c) then m.bits else m.triggered
            case _ => SameMasks(s, r)
  {
    match e
    case TriggerEvent(c, sens) => TriggerKeeps(cfg, s, c, sens);
    case _ => MasksKept(cfg, s, e);
  }

  lemma MasksKept(cfg: Config, s: State, e: Event)
    requires !e.TriggerEvent?
    ensures SameMasks(s, Step(cfg, s, e))
  {
    match e
    case EkfCheckEvent(sens) => CheckKeepsMasks(cfg, s, sens);
    case BatteryEvent(action, sens, force) => BatteryKeepsMasks(cfg, s, action, sens, force);
    case _ => OthersKeepMasks(cfg, s, e);
  }

  ghost predicate SameMasks(s: State, r: State) {
    r.bits == s.bits && r.triggered == s.triggered && r.startTime == s.startTime
  }

  lemma CheckKeepsMasks(cfg: Config, s: State, sens: Sensors)
    ensures SameMasks(s, Step(cfg, s, EkfCheckEvent(sens)))
  {
  }

  lemma BatteryKeepsMasks(cfg: Config, s: State, action: FailsafeAction, sens: Sensors, force: bool)
    ensures SameMasks(s, Step(cfg, s, BatteryEvent(action, sens, force)))
  {
    TryKeeps(cfg, s, Candidates(action), Failsafe, sens);
  }

  lemma OthersKeepMasks(cfg: Config, s: State, e: Event)
    requires !e.TriggerEvent? && !e.EkfCheckEvent? && !e.BatteryEvent?
    ensures SameMasks(s, Step(cfg, s, e))
  {
  }

  /** Failsafe bits pending after a run have been pending since the call at some index `k`, at
      which the start time was recorded. */
  lemma {:induction false} EpisodeStart(cfg: Config, run: seq<Event>) returns (k: nat)
    requires After(cfg, run).bits != {}
    ensures k < |run| && run[k].TriggerEvent?
    ensures After(cfg, run[..k]).bits == {}
    ensures forall j :: k < j <= |run| ==> After(cfg, run[..j]).bits != {}
    ensures After(cfg, run).startTime == Millis(run[k].call.firstRead)
  {
    var n := |run| - 1;
    var p := run[..n];
    assert run[..n + 1] == run;
    MasksOnlyByTrigger(cfg, After(cfg, p), run[n]);
    if After(cfg, p).bits == {} {
      k := n;
    } else {
      k := EpisodeStart(cfg, p);
      assert p[..k] == run[..k];
      forall j | k < j <= |run| ensures After(cfg, run[..j]).bits != {} {
        if j <= n {
          assert p[..j] == run[..j];
        }
      }
    }
  }

  /** The wrapping subtraction gives the true elapsed time modulo the clock period. */
  lemma ElapsedWraps(now: nat, start: nat)
    requires start <= now
    ensures Elapsed(Millis(now), Millis(start)) == (now - start) % 4294967296
  {
    var q, r := now / CLOCK_PERIOD, start / CLOCK_PERIOD;
    var d := Millis(now) - Millis(start);
    assert now - start == (q - r) * CLOCK_PERIOD + d;
    ModuloShift(d, q - r);
  }

  lemma {:induction false} ModuloShift(d: int, k: int)
    requires k >= -1
    ensures (k * CLOCK_PERIOD + d) % CLOCK_PERIOD == d % CLOCK_PERIOD
    decreases k + 1
  {
    if k == -1 {
      assert (d - CLOCK_PERIOD) % CLOCK_PERIOD == d % CLOCK_PERIOD;
    } else if k > 0 {
      ModuloShift(d, k - 1);
      assert k * CLOCK_PERIOD + d == ((k - 1) * CLOCK_PERIOD + d) + CLOCK_PERIOD;
    }
  }

  /** A failsafe action fires only in an episode whose bits have been non-zero after every call
      since the recorded start call and zero before it, and only when more than fs_timeout has
      passed on the wrapping clock - which is the true time for episodes under 2^32 ms. */
  lemma FiringNeedsPersistentFailsafe(cfg: Config, run: seq<Event>, c: Call, sens: Sensors) returns (k: nat)
    requires Fires(cfg, After(cfg, run), c)
    ensures var calls := run + [TriggerEvent(c, sens)];
            && k < |calls| && calls[k].TriggerEvent?
            && After(cfg, calls[..k]).bits == {}
            && (forall j :: k < j <= |calls| ==> After(cfg, calls[..j]).bits != {})
            && var start := calls[k].call.firstRead;
            && Elapsed(Millis(c.secondRead), Millis(start)) as real > cfg.fsTimeout * 1000.0
            && (start <= c.secondRead < start + 4294967296 ==> (c.secondRead - start) as real > cfg.fsTimeout * 1000.0)
  {
    var calls := run + [TriggerEvent(c, sens)];
    assert calls[..|run|] == run;
    MasksOnlyByTrigger(cfg, After(cfg, run), TriggerEvent(c, sens));
    k := EpisodeStart(cfg, calls);
    var start := calls[k].call.firstRead;
    if start <= c.secondRead < start + CLOCK_PERIOD {
      ElapsedWraps(c.secondRead, start);
    }
  }

  /** A call that leaves something pending fires exactly when the episode has outlasted the timeout, the
      rover is not already returning or holding, and nothing acted on is still pending. */
  lemma FiresExactlyWhen(cfg: Config, run: seq<Event>, c: Call, sens: Sensors) returns (k: nat)
    requires After(cfg, run + [TriggerEvent(c, sens)]).bits != {}
    ensures var calls := run + [TriggerEvent(c, sens)];
            && k < |calls| && calls[k].TriggerEvent?
            && After(cfg, calls[..k]).bits == {}
            && (forall j :: k < j <= |calls| ==> After(cfg, calls[..j]).bits != {})
            && var s := After(cfg, run);
            (Fires(cfg, s, c) <==>
              && Elapsed(Millis(c.secondRead), Millis(calls[k].call.firstRead)) as real > cfg.fsTimeout * 1000.0
              && s.mode != RTL && s.mode != Hold
              && forall b :: b in s.triggered ==> b !in After(cfg, calls).bits)
  {
    var calls := run + [TriggerEvent(c, sens)];
    assert calls[..|run|] == run;
    var s := After(cfg, run);
    MasksOnlyByTrigger(cfg, s, TriggerEvent(c, sens));
    k := EpisodeStart(cfg, calls);
    NothingShared(s.triggered, NewBits(s.bits, c));
  }

  lemma NothingShared(a: Mask, b: Mask)
    ensures a * b == {} <==> forall x :: x in a ==> x !in b
  {
    if a * b != {} {
      var x :| x in a * b;
    }
    forall x | x in a && a * b == {} ensures x !in b {
      assert x !in a * b;
    }
  }

  /* ---- the acted-on mask ---- */

  ghost predicate FiredAt(cfg: Config, run: seq<Event>, i: nat) {
    i < |run| && run[i].TriggerEvent? && Fires(cfg, After(cfg, run[..i]), run[i].call)
  }

  /** Failsafe bit `b` is still pending after every call with index in (i, n]. */
  ghost predicate StaysPending(cfg: Config, run: seq<Event>, i: nat, n: int, b: nat) {
    forall l :: i < l <= n && l < |run| && run[l].TriggerEvent? ==> b in After(cfg, run[..l + 1]).bits
  }

  lemma {:induction false} NoFiringWhilePending(cfg: Config, run: seq<Event>, i: nat, n: nat, b: nat)
    requires i <= n < |run| && FiredAt(cfg, run, i)
    requires b in After(cfg, run[..i + 1]).triggered
    requires StaysPending(cfg, run, i, n, b)
    ensures b in After(cfg, run[..n + 1]).triggered
    ensures i < n ==> !FiredAt(cfg, run, n)
  {
    if i < n {
      NoFiringWhilePending(cfg, run, i, n - 1, b);
      PrefixStep(cfg, run, n);
      var s := After(cfg, run[..n]);
      MasksOnlyByTrigger(cfg, s, run[n]);
      assert b in s.triggered;
      if run[n].TriggerEvent? {
        assert b in After(cfg, run[..n + 1]).bits;
        assert b in MaskedState(s, run[n].call).triggered;
        assert !Fires(cfg, s, run[n].call);
      }
    }
  }

  /** A failsafe counts as acted on exactly when some firing found it pending and it has stayed pending
      after every call since. */
  lemma {:induction false} ActedOnExactlyWhen(cfg: Config, run: seq<Event>, b: nat)
    ensures b in After(cfg, run).triggered <==> ActedOnSince(cfg, run, b)
  {
    if run != [] {
      var n := |run| - 1;
      ActedOnExactlyWhen(cfg, run[..n], b);
      MasksOnlyByTrigger(cfg, After(cfg, run[..n]), run[n]);
      ActedOnStep(cfg, run, n, b);
    }
  }

  ghost predicate ActedOnSince(cfg: Config, run: seq<Event>, b: nat) {
    exists i: nat :: FiredAt(cfg, run, i) && b in After(cfg, run[..i + 1]).bits && StaysPending(cfg, run, i, |run| - 1, b)
  }

  /** Acted on by the last call, or before it and not cleared by it. */
  lemma ActedOnStep(cfg: Config, run: seq<Event>, n: nat, b: nat)
    requires |run| == n + 1
    ensures ActedOnSince(cfg, run, b) <==>
            || (b in After(cfg, run).bits && FiredAt(cfg, run, n))
            || (ActedOnSince(cfg, run[..n], b) && (run[n].TriggerEvent? ==> b in After(cfg, run).bits))
  {
    if ActedOnSince(cfg, run, b) {
      ActedOnBefore(cfg, run, n, b);
    }
    if b in After(cfg, run).bits && FiredAt(cfg, run, n) {
      assert run[..n + 1] == run && StaysPending(cfg, run, n, n, b);
    }
    if ActedOnSince(cfg, run[..n], b) && (run[n].TriggerEvent? ==> b in After(cfg, run).bits) {
      StillActedOn(cfg, run, n, b);
    }
  }

  lemma ActedOnBefore(cfg: Config, run: seq<Event>, n: nat, b: nat)
    requires |run| == n + 1 && ActedOnSince(cfg, run, b)
    ensures || (b in After(cfg, run).bits && FiredAt(cfg, run, n))
            || (ActedOnSince(cfg, run[..n], b) && (run[n].TriggerEvent? ==> b in After(cfg, run).bits))
  {
    var i: nat :| FiredAt(cfg, run, i) && b in After(cfg, run[..i + 1]).bits && StaysPending(cfg, run, i, n, b);
    if i < n {
      FiredInPrefix(cfg, run, i, n);
      PendingInPrefix(cfg, run, i, n, b);
      assert ActedOnSince(cfg, run[..n], b);
      PendingAtEnd(cfg, run, i, n, b);
    } else {
      assert i == n && run[..n + 1] == run;
    }
  }

  lemma PendingAtEnd(cfg: Config, run: seq<Event>, i: nat, n: nat, b: nat)
    requires i < n && |run| == n + 1 && StaysPending(cfg, run, i, n, b)
    ensures run[n].TriggerEvent? ==> b in After(cfg, run).bits
  {
    assert run[..n + 1] == run;
  }

  lemma StillActedOn(cfg: Config, run: seq<Event>, n: nat, b: nat)
    requires |run| == n + 1 && ActedOnSince(cfg, run[..n], b)
    requires run[n].TriggerEvent? ==> b in After(cfg, run).bits
    ensures ActedOnSince(cfg, run, b)
  {
    var p := run[..n];
    var i: nat :| FiredAt(cfg, p, i) && b in After(cfg, p[..i + 1]).bits && StaysPending(cfg, p, i, n - 1, b);
    FiredInPrefix(cfg, run, i, n);
    PendingExtended(cfg, run, i, n, b);
  }

  lemma FiredInPrefix(cfg: Config, run: seq<Event>, i: nat, n: nat)
    requires i < n <= |run|
    ensures FiredAt(cfg, run[..n], i) == FiredAt(cfg, run, i)
    ensures run[..n][..i + 1] == run[..i + 1]
  {
    assert run[..n][..i] == run[..i] && run[..n][..i + 1] == run[..i + 1];
  }

  lemma PendingInPrefix(cfg: Config, run: seq<Event>, i: nat, n: nat, b: nat)
    requires i < n && |run| == n + 1 && StaysPending(cfg, run, i, n, b)
    ensures StaysPending(cfg, run[..n], i, n - 1, b)
  {
    var p := run[..n];
    forall l | i < l <= n - 1 && p[l].TriggerEvent? ensures b in After(cfg, p[..l + 1]).bits {
      assert p[..l + 1] == run[..l + 1] && p[l] == run[l];
    }
  }

  lemma PendingExtended(cfg: Config, run: seq<Event>, i: nat, n: nat, b: nat)
    requires i < n && |run| == n + 1 && StaysPending(cfg, run[..n], i, n - 1, b)
    requires run[n].TriggerEvent? ==> b in After(cfg, run).bits
    ensures StaysPending(cfg, run, i, n, b)
  {
    var p := run[..n];
    forall l | i < l <= n && run[l].TriggerEvent? ensures b in After(cfg, run[..l + 1]).bits {
      if l < n {
        assert p[..l + 1] == run[..l + 1] && p[l] == run[l];
      } else {
        assert run[..l + 1] == run;
      }
    }
  }

  /** Between two firings, every failsafe bit the first one acted on is seen cleared at some call. */
  lemma ActedOnBitsClearBeforeNextFiring(cfg: Config, run: seq<Event>, i: nat, j: nat, b: nat) returns (l: nat)
    requires i < j && FiredAt(cfg, run, i) && FiredAt(cfg, run, j)
    requires b in After(cfg, run[..i + 1]).triggered
    ensures i < l <= j && run[l].TriggerEvent? && b !in After(cfg, run[..l + 1]).bits
  {
    if StaysPending(cfg, run, i, j, b) {
      NoFiringWhilePending(cfg, run, i, j, b);
      assert false;
    }
    l :| i < l <= j && run[l].TriggerEvent? && b !in After(cfg, run[..l + 1]).bits;
  }

  /* ---- the fallback chains ---- */

  /** A fallback ends in the first of its candidate modes that is already active or whose entry
      checks pass; it always finds one, because Hold cannot be refused. */
  lemma FallbackPicksFirstReachable(cfg: Config, s: State, action: FailsafeAction, reason: Reason, sens: Sensors) returns (i: nat)
    requires Candidates(action) != []
    ensures i < |Candidates(action)| && Reachable(cfg, s, Candidates(action)[i], sens)
    ensures forall j :: 0 <= j < i ==> !Reachable(cfg, s, Candidates(action)[j], sens)
    ensures var r := TryInOrder(cfg, s, Candidates(action), reason, sens);
            && r.mode == Candidates(action)[i]
            && (r.mode == s.mode ==> r == s)
    ensures Reachable(cfg, s, Hold, sens)
  {
    ModeAfter(cfg, s, action, reason, sens);
    ModeAfterSet(cfg, s, Hold, reason, sens);
    TryKeepsActive(cfg, s, Candidates(action), reason, sens);
    i := if Reachable(cfg, s, Candidates(action)[0], sens) then 0
         else if Reachable(cfg, s, Candidates(action)[1], sens) then 1 else 2;
  }

  lemma {:induction false} TryKeepsActive(cfg: Config, s: State, targets: seq<Mode>, reason: Reason, sens: Sensors)
    ensures var r := TryInOrder(cfg, s, targets, reason, sens); r.mode == s.mode ==> r == s
  {
    if targets != [] && !Reachable(cfg, s, targets[0], sens) {
      TryKeepsActive(cfg, s, targets[1..], reason, sens);
    }
  }
}
