/** The hysteresis counter of ekf_check: what the saturating count and the flag mean in terms of
    the history of checks. */
module EkfCounter {

  const ITERATIONS_MAX: nat := 10

  /** fail_count and bad_variance of ekf_check_state. */
  datatype Counter = Counter(failCount: nat, bad: bool)

  const CLEAR := Counter(0, false)
  const RAISED := Counter(ITERATIONS_MAX, true)

  /** One armed check with the check enabled; `over` is the result of ekf_over_threshold.
      The count is a uint8_t, hence the explicit wrap. */
  function Check(c: Counter, over: bool): Counter {
    if over then
      if c.bad then c
      else
        var n := (c.failCount + 1) % 256;
        if n >= ITERATIONS_MAX then RAISED else Counter(n, false)
    else if c.failCount == 0 then c
    else Counter(c.failCount - 1, c.bad && c.failCount != 1)
  }

  /** The checks of `h`, oldest first. */
  function Run(c: Counter, h: seq<bool>): Counter {
    if h == [] then c else Check(Run(c, h[..|h| - 1]), h[|h| - 1])
  }

  /** Over-threshold checks minus good checks. */
  function Excess(h: seq<bool>): int {
    if h == [] then 0 else Excess(h[..|h| - 1]) + (if h[|h| - 1] then 1 else -1)
  }

  function Goods(h: seq<bool>): nat {
    if h == [] then 0 else Goods(h[..|h| - 1]) + (if h[|h| - 1] then 0 else 1)
  }

  /** `m` is the largest excess of any suffix of `h`, the empty suffix included. */
  ghost predicate IsMaxSuffixExcess(h: seq<bool>, m: int) {
    && (exists i :: 0 <= i <= |h| && Excess(h[i..]) == m)
    && (forall i :: 0 <= i <= |h| ==> Excess(h[i..]) <= m)
  }

  /** No stretch of consecutive checks has ten more over-threshold checks than good ones. */
  ghost predicate Quiet(h: seq<bool>) {
    forall i, j :: 0 <= i <= j <= |h| ==> Excess(h[i..j]) < 10
  }

  /** Some suffix of `h` has ten more over-threshold checks than good ones. */
  ghost predicate BadSuffix(h: seq<bool>) {
    exists i :: 0 <= i <= |h| && Excess(h[i..]) >= 10
  }

  /** The last check of `h` is the first one that completes such a stretch. */
  ghost predicate JustRaised(h: seq<bool>) {
    h != [] && Quiet(h[..|h| - 1]) && !Quiet(h)
  }

  /** Suffixes of h + [x] are the suffixes of h with x appended, and the empty one. */
  lemma SuffixesGrow(h: seq<bool>, x: bool, i: nat)
    requires i <= |h|
    ensures (h + [x])[i..] == h[i..] + [x]
    ensures Excess((h + [x])[i..]) == Excess(h[i..]) + (if x then 1 else -1)
  {
    var g := h[i..] + [x];
    assert (h + [x])[i..] == g;
    assert g[..|g| - 1] == h[i..];
  }

  lemma QuietGrows(h: seq<bool>, x: bool)
    ensures Quiet(h + [x]) <==> Quiet(h) && forall i :: 0 <= i <= |h| ==> Excess((h + [x])[i..]) < 10
  {
    var g := h + [x];
    forall i, j | 0 <= i <= j <= |h| ensures g[i..j] == h[i..j] {}
    forall i | 0 <= i <= |g| ensures g[i..] == g[i..|g|] {}
    assert g[|g|..|g|] == [];
  }

  /** Appending a check adds one to the largest suffix excess, or takes one away down to zero. */
  lemma SuffixMaxStep(p: seq<bool>, x: bool, m: nat)
    requires IsMaxSuffixExcess(p, m)
    ensures IsMaxSuffixExcess(p + [x], if x then m + 1 else if m == 0 then 0 else m - 1)
  {
    var h := p + [x];
    forall i | 0 <= i <= |p| ensures Excess(h[i..]) == Excess(p[i..]) + (if x then 1 else -1) {
      SuffixesGrow(p, x, i);
    }
    assert h[|h|..] == [];
    var i :| 0 <= i <= |p| && Excess(p[i..]) == m;
    assert Excess(h[i..]) == m + (if x then 1 else -1);
  }

  lemma QuietBoundsMax(h: seq<bool>, m: int)
    requires Quiet(h) && IsMaxSuffixExcess(h, m)
    ensures m < ITERATIONS_MAX
  {
    var i :| 0 <= i <= |h| && Excess(h[i..]) == m;
    assert h[i..] == h[i..|h|];
  }

  /** While no stretch reaches ten, the flag is down and fail_count is the largest suffix excess. */
  lemma {:induction false} CountIsMaxSuffixExcess(h: seq<bool>)
    requires Quiet(h)
    ensures !Run(CLEAR, h).bad
    ensures IsMaxSuffixExcess(h, Run(CLEAR, h).failCount)
  {
    if h == [] {
      assert h[0..] == [];
    } else {
      var p, x := h[..|h| - 1], h[|h| - 1];
      assert h == p + [x];
      QuietPrefix(p, x);
      CountIsMaxSuffixExcess(p);
      CountStep(p, x, Run(CLEAR, p));
    }
  }

  lemma QuietPrefix(p: seq<bool>, x: bool)
    requires Quiet(p + [x])
    ensures Quiet(p)
  {
    QuietGrows(p, x);
  }

  /** One quiet check keeps the flag down and the count at the largest suffix excess. */
  lemma CountStep(p: seq<bool>, x: bool, c: Counter)
    requires Quiet(p) && Quiet(p + [x]) && !c.bad && IsMaxSuffixExcess(p, c.failCount)
    ensures !Check(c, x).bad && IsMaxSuffixExcess(p + [x], Check(c, x).failCount)
  {
    var m := if x then c.failCount + 1 else if c.failCount == 0 then 0 else c.failCount - 1;
    SuffixMaxStep(p, x, c.failCount);
    assert m < ITERATIONS_MAX by { QuietBoundsMax(p + [x], m); }
    assert Check(c, x) == Counter(m, false);
  }

  /** From a quiet history the flag goes up exactly at the check that completes a stretch of ten. */
  lemma FlagRaisedExactlyWhen(p: seq<bool>, x: bool)
    requires Quiet(p)
    ensures Run(CLEAR, p + [x]).bad <==> BadSuffix(p + [x])
    ensures Run(CLEAR, p + [x]).bad <==> !Quiet(p + [x])
    ensures Run(CLEAR, p + [x]).bad ==> Run(CLEAR, p + [x]) == RAISED
  {
    var h := p + [x];
    assert h[..|h| - 1] == p;
    NextMax(p, x);
    var m := Run(CLEAR, p).failCount;
    BadByMax(h, if x then m + 1 else if m == 0 then 0 else m - 1);
    LoudByBadSuffix(p, x);
  }

  lemma NextMax(p: seq<bool>, x: bool)
    requires Quiet(p)
    ensures var c := Run(CLEAR, p);
            && !c.bad && c.failCount < ITERATIONS_MAX
            && IsMaxSuffixExcess(p + [x], if x then c.failCount + 1 else if c.failCount == 0 then 0 else c.failCount - 1)
  {
    CountIsMaxSuffixExcess(p);
    var m := Run(CLEAR, p).failCount;
    QuietBoundsMax(p, m);
    SuffixMaxStep(p, x, m);
  }

  lemma BadByMax(h: seq<bool>, m: int)
    requires IsMaxSuffixExcess(h, m)
    ensures BadSuffix(h) <==> m >= ITERATIONS_MAX
  {
  }

  lemma LoudByBadSuffix(p: seq<bool>, x: bool)
    requires Quiet(p)
    ensures !Quiet(p + [x]) <==> BadSuffix(p + [x])
  {
    QuietGrows(p, x);
    assert (p + [x])[|p| + 1..] == [];
  }

  /** Once up, the flag falls at the tenth good check and no sooner, whatever over-threshold checks
      are interleaved; until then fail_count is ten minus the good checks seen. */
  lemma {:induction false} FlagClearsAtTenthGood(h: seq<bool>)
    requires h == [] || Goods(h[..|h| - 1]) < 10
    ensures Run(RAISED, h).bad <==> Goods(h) < 10
    ensures Run(RAISED, h).failCount == 10 - Goods(h)
  {
    if h != [] {
      var p := h[..|h| - 1];
      if p != [] {
        assert Goods(p[..|p| - 1]) <= Goods(p);
      }
      FlagClearsAtTenthGood(p);
    }
  }
}
