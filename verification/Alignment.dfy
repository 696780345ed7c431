/** Pairing of attack rows with clean samples on normalised time, axis by axis. */
module Alignment {
  import opened Numeric
  import opened GateTarget
  import opened Axes
  import opened Selection

  const VALID_ANGLES: seq<Axis> := [Roll, Pitch, Yaw]

  datatype AttackRow = AttackRow(axis: Axis, timestamp: real, tNorm: real, yPid: real, yMl: real)

  datatype CleanSample = CleanSample(cleanTNorm: real, target: real)

  datatype AlignedRow = AlignedRow(row: AttackRow, sample: CleanSample, errorNorm: real)

  /* ---- normalised time ---- */

  function Smallest(ts: seq<real>): (m: real)
    requires ts != []
    ensures m in ts && forall t :: t in ts ==> m <= t
  {
    if |ts| == 1 then ts[0]
    else
      assert ts == ts[..|ts| - 1] + [ts[|ts| - 1]];
      Min(ts[|ts| - 1], Smallest(ts[..|ts| - 1]))
  }

  function Largest(ts: seq<real>): (m: real)
    requires ts != []
    ensures m in ts && forall t :: t in ts ==> t <= m
  {
    if |ts| == 1 then ts[0]
    else
      assert ts == ts[..|ts| - 1] + [ts[|ts| - 1]];
      Max(ts[|ts| - 1], Largest(ts[..|ts| - 1]))
  }

  /** add_normalized_time refuses a table without a positive time range. */
  predicate CanNormalise(ts: seq<real>) {
    ts != [] && Largest(ts) - Smallest(ts) > 0.0
  }

  function NormalisedTime(ts: seq<real>, t: real): real
    requires CanNormalise(ts)
  {
    (t - Smallest(ts)) / (Largest(ts) - Smallest(ts))
  }

  /** Normalised time runs from 0 at the earliest row to 1 at the latest and keeps the order. */
  lemma NormalisedTimeOrder(ts: seq<real>, s: real, t: real)
    requires CanNormalise(ts) && s in ts && t in ts
    ensures 0.0 <= NormalisedTime(ts, s) <= 1.0
    ensures s <= t <==> NormalisedTime(ts, s) <= NormalisedTime(ts, t)
    ensures NormalisedTime(ts, Smallest(ts)) == 0.0 && NormalisedTime(ts, Largest(ts)) == 1.0
  {
    var low, d := Smallest(ts), Largest(ts) - Smallest(ts);
    QuotientOrder(0.0, s - low, d);
    QuotientOrder(s - low, d, d);
    QuotientOrder(s - low, t - low, d);
    QuotientTimes(d, d);
  }

  lemma CanNormaliseExactlyWhen(ts: seq<real>)
    ensures CanNormalise(ts) <==> exists s, t :: s in ts && t in ts && s < t
  {
    if CanNormalise(ts) {
      assert Smallest(ts) in ts && Largest(ts) in ts && Smallest(ts) < Largest(ts);
    }
  }

  /** Normalised time is time since the earliest row as a share of the whole range. */
  lemma NormalisedTimeIsShare(ts: seq<real>, t: real)
    requires CanNormalise(ts)
    ensures NormalisedTime(ts, t) * (Largest(ts) - Smallest(ts)) == t - Smallest(ts)
  {
    QuotientTimes(t - Smallest(ts), Largest(ts) - Smallest(ts));
  }

  lemma QuotientOrder(x: real, y: real, d: real)
    requires d > 0.0
    ensures x <= y <==> x / d <= y / d
    ensures 0.0 / d == 0.0 && d / d == 1.0
  {
    QuotientTimes(x, d);
    QuotientTimes(y, d);
    if x / d < y / d {
      ScaleOrder(x / d, y / d, d);
    } else if y / d < x / d {
      ScaleOrder(y / d, x / d, d);
    }
  }

  /* ---- nearest sample ---- */

  ghost predicate InOrder(cs: seq<CleanSample>) {
    forall i, j :: 0 <= i < j < |cs| ==> cs[i].cleanTNorm <= cs[j].cleanTNorm
  }

  /** Backward match: the last sample at or before `t`, or -1. */
  function Backward(cs: seq<CleanSample>, t: real): (i: int)
    ensures -1 <= i < |cs|
    ensures i >= 0 ==> cs[i].cleanTNorm <= t
    ensures forall k :: i < k < |cs| ==> cs[k].cleanTNorm > t
  {
    if cs == [] then -1
    else if cs[|cs| - 1].cleanTNorm <= t then |cs| - 1
    else Backward(cs[..|cs| - 1], t)
  }

  /** Forward match: the first sample at or after `t` from position `from`, or -1. */
  function Forward(cs: seq<CleanSample>, t: real, from: nat): (i: int)
    requires from <= |cs|
    ensures i == -1 || from <= i < |cs|
    ensures i >= 0 ==> cs[i].cleanTNorm >= t
    ensures forall k :: from <= k < |cs| && (i == -1 || k < i) ==> cs[k].cleanTNorm < t
    decreases |cs| - from
  {
    if from == |cs| then -1
    else if cs[from].cleanTNorm >= t then from
    else Forward(cs, t, from + 1)
  }

  /** merge_asof with direction "nearest": the closer of the two, the earlier one on a tie. */
  function Nearest(cs: seq<CleanSample>, t: real): (i: nat)
    requires cs != []
    ensures i < |cs|
  {
    var b, f := Backward(cs, t), Forward(cs, t, 0);
    assert b != -1 || cs[0].cleanTNorm > t;
    assert f != -1 || cs[0].cleanTNorm < t;
    if b != -1 && f != -1 then
      if t - cs[b].cleanTNorm <= cs[f].cleanTNorm - t then b else f
    else if b != -1 then b
    else f
  }

  /** On sorted samples the match has the smallest time error of all samples. */
  lemma NearestIsMinimal(cs: seq<CleanSample>, t: real, k: nat)
    requires cs != [] && InOrder(cs) && k < |cs|
    ensures Abs(t - cs[Nearest(cs, t)].cleanTNorm) <= Abs(t - cs[k].cleanTNorm)
  {
    var b, f := Backward(cs, t), Forward(cs, t, 0);
    assert b != -1 || cs[0].cleanTNorm > t;
    assert f != -1 || cs[0].cleanTNorm < t;
  }

  /** Of two equally close samples the earlier one is taken, and of equal times at or before the row
      the last one. */
  lemma NearestPrefersEarlier(cs: seq<CleanSample>, t: real, k: nat)
    requires cs != [] && InOrder(cs) && k < |cs|
    ensures var i := Nearest(cs, t);
            && (cs[i].cleanTNorm <= t && k > i ==> cs[k].cleanTNorm > t)
            && (cs[i].cleanTNorm > t && k < i ==> Abs(t - cs[k].cleanTNorm) > Abs(t - cs[i].cleanTNorm))
  {
    var b, f := Backward(cs, t), Forward(cs, t, 0);
    assert b != -1 || cs[0].cleanTNorm > t;
    assert f != -1 || cs[0].cleanTNorm < t;
    if cs[Nearest(cs, t)].cleanTNorm > t && k < Nearest(cs, t) {
      assert b != -1 && cs[k].cleanTNorm <= cs[b].cleanTNorm <= t;
    }
  }

  function Merge(r: AttackRow, cs: seq<CleanSample>): AlignedRow
    requires cs != []
  {
    var sample := cs[Nearest(cs, r.tNorm)];
    AlignedRow(r, sample, Abs(r.tNorm - sample.cleanTNorm))
  }

  /* ---- one axis ---- */

  /** What is known of the library's sort on a real column: an ordered permutation. */
  ghost predicate IsSortOn<T(!new)>(sort: seq<T> -> seq<T>, key: T -> real) {
    forall s {:trigger sort(s)} ::
      multiset(sort(s)) == multiset(s) && forall i, j :: 0 <= i < j < |sort(s)| ==> key(sort(s)[i]) <= key(sort(s)[j])
  }

  lemma SortOnKeeps<T(!new)>(sort: seq<T> -> seq<T>, key: T -> real, s: seq<T>)
    requires IsSortOn(sort, key)
    ensures |sort(s)| == |s|
    ensures forall x :: x in sort(s) <==> x in s
  {
    assert |multiset(sort(s))| == |sort(s)| && |multiset(s)| == |s|;
    forall x ensures x in sort(s) <==> x in s {
      assert x in multiset(sort(s)) <==> x in multiset(s);
    }
  }

  function MergeAll(rows: seq<AttackRow>, cs: seq<CleanSample>): (m: seq<AlignedRow>)
    requires cs != []
    ensures |m| == |rows| && forall i :: 0 <= i < |rows| ==> m[i] == Merge(rows[i], cs)
  {
    seq(|rows|, i requires 0 <= i < |rows| => Merge(rows[i], cs))
  }

  function WithinBy(maxError: real): AlignedRow -> bool {
    (a: AlignedRow) => a.errorNorm <= maxError
  }

  function StableBy(minMlPidGap: real): AlignedRow -> bool {
    (a: AlignedRow) => StableGap(SampleOf(a), minMlPidGap)
  }

  function SampleOf(a: AlignedRow): Sample { Sample(a.sample.target, a.row.yPid, a.row.yMl) }

  function OnAxis(rows: seq<AttackRow>, axis: Axis): seq<AttackRow> {
    Select((r: AttackRow) => r.axis == axis, rows)
  }

  /** The library sorts used on the attack rows and on the clean samples. */
  datatype Sorts = Sorts(attack: seq<AttackRow> -> seq<AttackRow>, clean: seq<CleanSample> -> seq<CleanSample>)

  ghost predicate AreSorts(sorts: Sorts) {
    && IsSortOn(sorts.attack, (r: AttackRow) => r.tNorm)
    && IsSortOn(sorts.clean, (c: CleanSample) => c.cleanTNorm)
  }

  /** Rows of one axis that pass the alignment filter; a non-positive tolerance switches it off. */
  function AlignedRows(rows: seq<AttackRow>, clean: seq<CleanSample>, maxError: real, sorts: Sorts): seq<AlignedRow> {
    var cs := sorts.clean(clean);
    if cs == [] then []
    else
      var merged := MergeAll(sorts.attack(rows), cs);
      if maxError > 0.0 then Select(WithinBy(maxError), merged) else merged
  }

  /** The sorted clean samples are matched with the smallest error. */
  lemma MergeIsMinimal(r: AttackRow, clean: seq<CleanSample>, sorts: Sorts, c: CleanSample)
    requires AreSorts(sorts) && c in clean
    ensures sorts.clean(clean) != []
    ensures var a := Merge(r, sorts.clean(clean)); a.sample in clean && a.errorNorm <= Abs(r.tNorm - c.cleanTNorm)
  {
    var key := (c: CleanSample) => c.cleanTNorm;
    SortOnKeeps(sorts.clean, key, clean);
    var cs := sorts.clean(clean);
    assert InOrder(cs) by {
      forall i, j | 0 <= i < j < |cs| ensures cs[i].cleanTNorm <= cs[j].cleanTNorm {
        assert key(cs[i]) <= key(cs[j]);
      }
    }
    var k :| 0 <= k < |cs| && cs[k] == c;
    NearestIsMinimal(cs, r.tNorm, k);
    assert cs[Nearest(cs, r.tNorm)] in cs;
  }

  /** Some clean sample lies within the tolerance of the row's normalised time. */
  ghost predicate HasCloseSample(r: AttackRow, clean: seq<CleanSample>, maxError: real) {
    exists c :: c in clean && Abs(r.tNorm - c.cleanTNorm) <= maxError
  }

  /** The row finds a clean sample, within the tolerance if there is one. */
  ghost predicate Aligns(r: AttackRow, clean: seq<CleanSample>, maxError: real) {
    clean != [] && (maxError > 0.0 ==> HasCloseSample(r, clean, maxError))
  }

  /** A row survives the alignment filter exactly when some clean sample is close enough; a tolerance
      of zero or less lets every row through. */
  lemma SurvivesExactlyWhen(rows: seq<AttackRow>, clean: seq<CleanSample>, maxError: real, sorts: Sorts, r: AttackRow)
    requires AreSorts(sorts) && r in rows
    ensures (exists a :: a in AlignedRows(rows, clean, maxError, sorts) && a.row == r) <==> Aligns(r, clean, maxError)
  {
    SortOnKeeps(sorts.clean, (c: CleanSample) => c.cleanTNorm, clean);
    if clean != [] {
      MergedWithin(r, clean, maxError, sorts);
      if Aligns(r, clean, maxError) {
        MergedSurvives(rows, clean, maxError, sorts, r);
      }
      if a :| a in AlignedRows(rows, clean, maxError, sorts) && a.row == r {
        SurvivorIsMerged(rows, clean, maxError, sorts, a);
      }
    }
  }

  lemma AlignedMembers(rows: seq<AttackRow>, clean: seq<CleanSample>, maxError: real, sorts: Sorts)
    requires sorts.clean(clean) != []
    ensures forall a :: a in AlignedRows(rows, clean, maxError, sorts) <==>
              a in MergeAll(sorts.attack(rows), sorts.clean(clean)) && (maxError > 0.0 ==> a.errorNorm <= maxError)
  {
    SelectMembers(WithinBy(maxError), MergeAll(sorts.attack(rows), sorts.clean(clean)));
  }

  lemma KeptMembers(aligned: seq<AlignedRow>, minMlPidGap: real)
    ensures forall a :: a in KeptRows(aligned, minMlPidGap) <==> a in aligned && StableGap(SampleOf(a), minMlPidGap)
  {
    SelectMembers(StableBy(minMlPidGap), aligned);
  }

  lemma MergedSurvives(rows: seq<AttackRow>, clean: seq<CleanSample>, maxError: real, sorts: Sorts, r: AttackRow)
    requires AreSorts(sorts) && r in rows && sorts.clean(clean) != []
    requires maxError > 0.0 ==> Merge(r, sorts.clean(clean)).errorNorm <= maxError
    ensures Merge(r, sorts.clean(clean)) in AlignedRows(rows, clean, maxError, sorts)
  {
    SortOnKeeps(sorts.attack, (r: AttackRow) => r.tNorm, rows);
    AlignedMembers(rows, clean, maxError, sorts);
    var cs, sorted := sorts.clean(clean), sorts.attack(rows);
    var i :| 0 <= i < |sorted| && sorted[i] == r;
    assert MergeAll(sorted, cs)[i] in MergeAll(sorted, cs);
  }

  lemma SurvivorIsMerged(rows: seq<AttackRow>, clean: seq<CleanSample>, maxError: real, sorts: Sorts, a: AlignedRow)
    requires AreSorts(sorts) && a in AlignedRows(rows, clean, maxError, sorts)
    ensures sorts.clean(clean) != [] && a == Merge(a.row, sorts.clean(clean))
    ensures a.sample in clean && (maxError > 0.0 ==> a.errorNorm <= maxError)
  {
    SortOnKeeps(sorts.clean, (c: CleanSample) => c.cleanTNorm, clean);
    var cs, sorted := sorts.clean(clean), sorts.attack(rows);
    AlignedMembers(rows, clean, maxError, sorts);
    assert a in MergeAll(sorted, cs);
    var i :| 0 <= i < |sorted| && MergeAll(sorted, cs)[i] == a;
    assert cs[Nearest(cs, a.row.tNorm)] in cs;
  }

  lemma RecordedErrorIsMinimal(rows: seq<AttackRow>, clean: seq<CleanSample>, maxError: real, sorts: Sorts, a: AlignedRow, c: CleanSample)
    requires AreSorts(sorts) && a in AlignedRows(rows, clean, maxError, sorts) && c in clean
    ensures a.sample in clean && a.errorNorm == Abs(a.row.tNorm - a.sample.cleanTNorm)
    ensures a.errorNorm <= Abs(a.row.tNorm - c.cleanTNorm)
  {
    SurvivorIsMerged(rows, clean, maxError, sorts, a);
    MergeIsMinimal(a.row, clean, sorts, c);
  }

  /* ---- the pair ---- */

  /** The per-axis entry of the pairing report. */
  datatype AxisReport = AxisReport(attackRows: nat, cleanRows: nat, keptRows: nat, droppedByAlignment: nat, droppedByLowGap: nat)

  /** A paired row: aligned, with its stored alpha label. */
  datatype PairedRow = PairedRow(aligned: AlignedRow, alphaStar: real)

  function Label(a: AlignedRow): PairedRow {
    PairedRow(a, if a.row.yMl != a.row.yPid then UncappedAlpha(SampleOf(a)) else 0.0)
  }

  function LabelAll(rows: seq<AlignedRow>): (r: seq<PairedRow>)
    ensures |r| == |rows| && forall i :: 0 <= i < |rows| ==> r[i] == Label(rows[i])
  {
    seq(|rows|, i requires 0 <= i < |rows| => Label(rows[i]))
  }

  function KeptRows(aligned: seq<AlignedRow>, minMlPidGap: real): seq<AlignedRow> {
    Select(StableBy(minMlPidGap), aligned)
  }

  /** The loop body of align_pair for one axis. */
  function AlignAxis(rows: seq<AttackRow>, clean: seq<CleanSample>, maxError: real, minMlPidGap: real, sorts: Sorts): (seq<PairedRow>, AxisReport) {
    if rows == [] || clean == [] then ([], AxisReport(|rows|, |clean|, 0, |rows|, 0))
    else
      var aligned := AlignedRows(rows, clean, maxError, sorts);
      var kept := KeptRows(aligned, minMlPidGap);
      (LabelAll(kept), AxisReport(|rows|, |clean|, |kept|,
        if |rows| >= |aligned| then |rows| - |aligned| else 0, if |aligned| >= |kept| then |aligned| - |kept| else 0))
  }

  /** Per axis, the attack rows are the kept ones plus the two kinds of dropped ones. */
  lemma AxisConserved(rows: seq<AttackRow>, clean: seq<CleanSample>, maxError: real, minMlPidGap: real, sorts: Sorts)
    requires AreSorts(sorts)
    ensures var (kept, rep) := AlignAxis(rows, clean, maxError, minMlPidGap, sorts);
            && rep.attackRows == |rows| && rep.keptRows == |kept|
            && rep.attackRows == rep.keptRows + rep.droppedByAlignment + rep.droppedByLowGap
  {
    SortOnKeeps(sorts.attack, (r: AttackRow) => r.tNorm, rows);
    SortOnKeeps(sorts.clean, (c: CleanSample) => c.cleanTNorm, clean);
  }

  /** The stored label lies in [0, 1] and no other blend of the row's two controllers comes closer to
      the matched target; the sample is a clean one, and the gap is at least the configured one. */
  ghost predicate StoresBest(p: PairedRow, rows: seq<AttackRow>, clean: seq<CleanSample>, minMlPidGap: real) {
    var row, target := p.aligned.row, p.aligned.sample.target;
    && row in rows && p.aligned.sample in clean
    && Abs(row.yMl - row.yPid) >= minMlPidGap && Abs(row.yMl - row.yPid) >= 0.000000000001
    && IsBest(Sample(target, row.yPid, row.yMl), p.alphaStar, 1.0)
  }

  lemma StoredLabelsAreBest(rows: seq<AttackRow>, clean: seq<CleanSample>, maxError: real, minMlPidGap: real, sorts: Sorts, p: PairedRow)
    requires AreSorts(sorts) && p in AlignAxis(rows, clean, maxError, minMlPidGap, sorts).0
    ensures StoresBest(p, rows, clean, minMlPidGap)
  {
    var aligned := AlignedRows(rows, clean, maxError, sorts);
    StableWhenLabelled(aligned, minMlPidGap, p);
    SurvivorIsMerged(rows, clean, maxError, sorts, p.aligned);
    SurvivorIsRow(rows, clean, maxError, sorts, p.aligned);
    var s := SampleOf(p.aligned);
    assert p.alphaStar == AlphaStar(s, minMlPidGap, 1.0);
    AlphaStarIsBest(s, minMlPidGap, 1.0);
  }

  lemma SurvivorIsRow(rows: seq<AttackRow>, clean: seq<CleanSample>, maxError: real, sorts: Sorts, a: AlignedRow)
    requires AreSorts(sorts) && a in AlignedRows(rows, clean, maxError, sorts)
    ensures a.row in rows
  {
    SortOnKeeps(sorts.attack, (r: AttackRow) => r.tNorm, rows);
    var sorted := sorts.attack(rows);
    SurvivorIsMerged(rows, clean, maxError, sorts, a);
    AlignedMembers(rows, clean, maxError, sorts);
    var merged := MergeAll(sorted, sorts.clean(clean));
    assert a in merged;
    var i :| 0 <= i < |merged| && merged[i] == a;
    assert sorted[i] in sorted;
  }

  /** Paired rows come out in normalised time. */
  lemma PairedInTimeOrder(rows: seq<AttackRow>, clean: seq<CleanSample>, maxError: real, minMlPidGap: real, sorts: Sorts, i: nat, j: nat)
    requires AreSorts(sorts) && i < j < |AlignAxis(rows, clean, maxError, minMlPidGap, sorts).0|
    ensures var paired := AlignAxis(rows, clean, maxError, minMlPidGap, sorts).0;
            paired[i].aligned.row.tNorm <= paired[j].aligned.row.tNorm
  {
    var earlier := (a: AlignedRow, b: AlignedRow) => a.row.tNorm <= b.row.tNorm;
    var key := (r: AttackRow) => r.tNorm;
    var sorted, cs := sorts.attack(rows), sorts.clean(clean);
    var merged := MergeAll(sorted, cs);
    assert Pairwise(earlier, merged) by {
      forall i, j | 0 <= i < j < |merged| ensures earlier(merged[i], merged[j]) {
        assert key(sorted[i]) <= key(sorted[j]);
      }
    }
    var aligned := AlignedRows(rows, clean, maxError, sorts);
    SelectKeepsPairwise(earlier, WithinBy(maxError), merged);
    assert Pairwise(earlier, aligned);
    SelectKeepsPairwise(earlier, StableBy(minMlPidGap), aligned);
    assert earlier(KeptRows(aligned, minMlPidGap)[i], KeptRows(aligned, minMlPidGap)[j]);
  }

  ghost predicate FarApart(r: AttackRow, minMlPidGap: real) {
    Abs(r.yMl - r.yPid) >= minMlPidGap && Abs(r.yMl - r.yPid) >= 0.000000000001
  }

  ghost function KeptBy(clean: seq<CleanSample>, maxError: real, minMlPidGap: real): AttackRow -> bool {
    (r: AttackRow) => Aligns(r, clean, maxError) && FarApart(r, minMlPidGap)
  }

  ghost function LowGapBy(clean: seq<CleanSample>, maxError: real, minMlPidGap: real): AttackRow -> bool {
    (r: AttackRow) => Aligns(r, clean, maxError) && !FarApart(r, minMlPidGap)
  }

  ghost function AlignedBy(clean: seq<CleanSample>, maxError: real): AttackRow -> bool {
    (r: AttackRow) => Aligns(r, clean, maxError)
  }

  ghost function UnalignedBy(clean: seq<CleanSample>, maxError: real): AttackRow -> bool {
    (r: AttackRow) => !Aligns(r, clean, maxError)
  }

  /** The report counts the rows kept and the rows dropped for either reason. */
  lemma ReportCounts(rows: seq<AttackRow>, clean: seq<CleanSample>, maxError: real, minMlPidGap: real, sorts: Sorts)
    requires AreSorts(sorts)
    ensures var rep := AlignAxis(rows, clean, maxError, minMlPidGap, sorts).1;
            && rep.attackRows == |rows| && rep.cleanRows == |clean|
            && rep.keptRows == |Select(KeptBy(clean, maxError, minMlPidGap), rows)|
            && rep.droppedByAlignment == |Select(UnalignedBy(clean, maxError), rows)|
            && rep.droppedByLowGap == |Select(LowGapBy(clean, maxError, minMlPidGap), rows)|
  {
    CountsAdd(AlignedBy(clean, maxError), KeptBy(clean, maxError, minMlPidGap), LowGapBy(clean, maxError, minMlPidGap), rows);
    var any := (r: AttackRow) => true;
    AllKept(any, rows);
    CountsAdd(any, AlignedBy(clean, maxError), UnalignedBy(clean, maxError), rows);
    if clean == [] {
      AllKept(UnalignedBy(clean, maxError), rows);
    } else if rows != [] {
      AlignedCounts(rows, clean, maxError, minMlPidGap, sorts);
    }
  }

  /** A mask on the merged rows that is a mask on the attack rows keeps as many. */
  lemma MergedCount(p: AlignedRow -> bool, q: AttackRow -> bool, rows: seq<AttackRow>, clean: seq<CleanSample>, sorts: Sorts)
    requires AreSorts(sorts) && sorts.clean(clean) != []
    requires forall r :: r in rows ==> p(Merge(r, sorts.clean(clean))) == q(r)
    ensures |Select(p, MergeAll(sorts.attack(rows), sorts.clean(clean)))| == |Select(q, rows)|
  {
    SortOnKeeps(sorts.attack, (r: AttackRow) => r.tNorm, rows);
    var sorted := sorts.attack(rows);
    forall i | 0 <= i < |sorted| ensures p(MergeAll(sorted, sorts.clean(clean))[i]) == q(sorted[i]) {
      assert sorted[i] in sorted;
    }
    SameMaskSameCount(p, MergeAll(sorted, sorts.clean(clean)), q, sorted);
    CountOfPermuted(q, sorted, rows);
  }

  lemma MergedWithin(r: AttackRow, clean: seq<CleanSample>, maxError: real, sorts: Sorts)
    requires AreSorts(sorts) && clean != []
    ensures sorts.clean(clean) != []
    ensures Merge(r, sorts.clean(clean)).errorNorm <= maxError <==> HasCloseSample(r, clean, maxError)
  {
    SortOnKeeps(sorts.clean, (c: CleanSample) => c.cleanTNorm, clean);
    MergeIsMinimal(r, clean, sorts, clean[0]);
    if HasCloseSample(r, clean, maxError) {
      var c :| c in clean && Abs(r.tNorm - c.cleanTNorm) <= maxError;
      MergeIsMinimal(r, clean, sorts, c);
    }
  }

  lemma AlignedCounts(rows: seq<AttackRow>, clean: seq<CleanSample>, maxError: real, minMlPidGap: real, sorts: Sorts)
    requires AreSorts(sorts) && clean != []
    ensures |AlignedRows(rows, clean, maxError, sorts)| == |Select(AlignedBy(clean, maxError), rows)|
    ensures |KeptRows(AlignedRows(rows, clean, maxError, sorts), minMlPidGap)| == |Select(KeptBy(clean, maxError, minMlPidGap), rows)|
  {
    SortOnKeeps(sorts.clean, (c: CleanSample) => c.cleanTNorm, clean);
    var cs, merged := sorts.clean(clean), MergeAll(sorts.attack(rows), sorts.clean(clean));
    if maxError > 0.0 {
      WithinCounts(rows, clean, maxError, minMlPidGap, sorts);
    } else {
      AllKept(AlignedBy(clean, maxError), rows);
      SortOnKeeps(sorts.attack, (r: AttackRow) => r.tNorm, rows);
      MergedCount(StableBy(minMlPidGap), KeptBy(clean, maxError, minMlPidGap), rows, clean, sorts);
    }
  }

  function BothBy(maxError: real, minMlPidGap: real): AlignedRow -> bool {
    (a: AlignedRow) => WithinBy(maxError)(a) && StableBy(minMlPidGap)(a)
  }

  /** The masks on the merged rows say what the masks on the attack rows say. */
  lemma MasksAgree(r: AttackRow, clean: seq<CleanSample>, maxError: real, minMlPidGap: real, sorts: Sorts)
    requires AreSorts(sorts) && clean != [] && sorts.clean(clean) != [] && maxError > 0.0
    ensures WithinBy(maxError)(Merge(r, sorts.clean(clean))) == AlignedBy(clean, maxError)(r)
    ensures BothBy(maxError, minMlPidGap)(Merge(r, sorts.clean(clean))) == KeptBy(clean, maxError, minMlPidGap)(r)
  {
    MergedWithin(r, clean, maxError, sorts);
  }

  lemma WithinCounts(rows: seq<AttackRow>, clean: seq<CleanSample>, maxError: real, minMlPidGap: real, sorts: Sorts)
    requires AreSorts(sorts) && clean != [] && sorts.clean(clean) != [] && maxError > 0.0
    ensures var within := Select(WithinBy(maxError), MergeAll(sorts.attack(rows), sorts.clean(clean)));
            && |within| == |Select(AlignedBy(clean, maxError), rows)|
            && |Select(StableBy(minMlPidGap), within)| == |Select(KeptBy(clean, maxError, minMlPidGap), rows)|
  {
    var within, stable := WithinBy(maxError), StableBy(minMlPidGap);
    var both := BothBy(maxError, minMlPidGap);
    forall r | r in rows
      ensures within(Merge(r, sorts.clean(clean))) == AlignedBy(clean, maxError)(r)
      ensures both(Merge(r, sorts.clean(clean))) == KeptBy(clean, maxError, minMlPidGap)(r)
    {
      MasksAgree(r, clean, maxError, minMlPidGap, sorts);
    }
    MergedCount(within, AlignedBy(clean, maxError), rows, clean, sorts);
    MergedCount(both, KeptBy(clean, maxError, minMlPidGap), rows, clean, sorts);
    SelectInTurn(stable, within, both, MergeAll(sorts.attack(rows), sorts.clean(clean)));
  }

  ghost predicate PairsRow(paired: seq<PairedRow>, r: AttackRow) {
    exists p :: p in paired && p.aligned.row == r
  }

  /** A row of the axis ends up in the output exactly when a clean sample is close enough and its
      controllers are far enough apart. */
  lemma KeptExactlyWhen(rows: seq<AttackRow>, clean: seq<CleanSample>, maxError: real, minMlPidGap: real, sorts: Sorts, r: AttackRow)
    requires AreSorts(sorts) && r in rows
    ensures PairsRow(AlignAxis(rows, clean, maxError, minMlPidGap, sorts).0, r) <==>
            Aligns(r, clean, maxError) && FarApart(r, minMlPidGap)
  {
    if Aligns(r, clean, maxError) && FarApart(r, minMlPidGap) {
      KeptIfClose(rows, clean, maxError, minMlPidGap, sorts, r);
    }
    if PairsRow(AlignAxis(rows, clean, maxError, minMlPidGap, sorts).0, r) {
      var p :| p in AlignAxis(rows, clean, maxError, minMlPidGap, sorts).0 && p.aligned.row == r;
      CloseIfKept(rows, clean, maxError, minMlPidGap, sorts, p);
    }
  }

  lemma KeptIfClose(rows: seq<AttackRow>, clean: seq<CleanSample>, maxError: real, minMlPidGap: real, sorts: Sorts, r: AttackRow)
    requires AreSorts(sorts) && r in rows && Aligns(r, clean, maxError) && FarApart(r, minMlPidGap)
    ensures PairsRow(AlignAxis(rows, clean, maxError, minMlPidGap, sorts).0, r)
  {
    SurvivesExactlyWhen(rows, clean, maxError, sorts, r);
    var a :| a in AlignedRows(rows, clean, maxError, sorts) && a.row == r;
    LabelledWhenStable(AlignedRows(rows, clean, maxError, sorts), minMlPidGap, a);
  }

  lemma CloseIfKept(rows: seq<AttackRow>, clean: seq<CleanSample>, maxError: real, minMlPidGap: real, sorts: Sorts, p: PairedRow)
    requires AreSorts(sorts) && p in AlignAxis(rows, clean, maxError, minMlPidGap, sorts).0
    ensures Aligns(p.aligned.row, clean, maxError) && FarApart(p.aligned.row, minMlPidGap)
  {
    StableWhenLabelled(AlignedRows(rows, clean, maxError, sorts), minMlPidGap, p);
    SurvivorIsMerged(rows, clean, maxError, sorts, p.aligned);
    MergedWithin(p.aligned.row, clean, maxError, sorts);
  }

  lemma LabelledWhenStable(aligned: seq<AlignedRow>, minMlPidGap: real, a: AlignedRow)
    requires a in aligned && StableGap(SampleOf(a), minMlPidGap)
    ensures Label(a) in LabelAll(KeptRows(aligned, minMlPidGap))
  {
    var kept := KeptRows(aligned, minMlPidGap);
    KeptMembers(aligned, minMlPidGap);
    var i :| 0 <= i < |kept| && kept[i] == a;
    assert LabelAll(kept)[i] in LabelAll(kept);
  }

  lemma StableWhenLabelled(aligned: seq<AlignedRow>, minMlPidGap: real, p: PairedRow)
    requires p in LabelAll(KeptRows(aligned, minMlPidGap))
    ensures p.aligned in aligned && StableGap(SampleOf(p.aligned), minMlPidGap) && p == Label(p.aligned)
  {
    var kept := KeptRows(aligned, minMlPidGap);
    KeptMembers(aligned, minMlPidGap);
    var i :| 0 <= i < |kept| && LabelAll(kept)[i] == p;
    assert kept[i] in kept;
  }

  ghost predicate Accounted(rep: AxisReport) {
    rep.attackRows == rep.keptRows + rep.droppedByAlignment + rep.droppedByLowGap
  }

  /** The three reports account for every attack row and every paired row. */
  ghost predicate ReportsAccount(reports: seq<AxisReport>, attackRows: nat, pairedRows: nat) {
    && |reports| == |VALID_ANGLES|
    && (forall rep :: rep in reports ==> Accounted(rep))
    && reports[0].attackRows + reports[1].attackRows + reports[2].attackRows == attackRows
    && reports[0].keptRows + reports[1].keptRows + reports[2].keptRows == pairedRows
  }

  /** Every prepared row is on exactly one axis. */
  lemma {:induction false} AxesPartitionRows(attack: seq<AttackRow>)
    ensures |OnAxis(attack, Roll)| + |OnAxis(attack, Pitch)| + |OnAxis(attack, Yaw)| == |attack|
  {
    if attack != [] {
      AxesPartitionRows(attack[..|attack| - 1]);
    }
  }

  /** What align_pair does for the n-th axis. */
  function AxisResult(attack: seq<AttackRow>, clean: map<Axis, seq<CleanSample>>, maxError: real, minMlPidGap: real, sorts: Sorts, n: nat): (seq<PairedRow>, AxisReport)
    requires n < |VALID_ANGLES| && forall axis :: axis in clean
  {
    AlignAxis(OnAxis(attack, VALID_ANGLES[n]), clean[VALID_ANGLES[n]], maxError, minMlPidGap, sorts)
  }

  lemma AxisAccounted(attack: seq<AttackRow>, clean: map<Axis, seq<CleanSample>>, maxError: real, minMlPidGap: real, sorts: Sorts, n: nat)
    requires AreSorts(sorts) && n < |VALID_ANGLES| && forall axis :: axis in clean
    ensures var (kept, rep) := AxisResult(attack, clean, maxError, minMlPidGap, sorts, n);
            && rep.attackRows == |OnAxis(attack, VALID_ANGLES[n])|
            && rep.keptRows == |kept|
            && Accounted(rep)
  {
    AxisConserved(OnAxis(attack, VALID_ANGLES[n]), clean[VALID_ANGLES[n]], maxError, minMlPidGap, sorts);
  }

  /** align_pair after loading: roll, pitch and yaw in turn, a report for each, the kept rows appended.
      No prepared row is lost unaccounted for, and every stored label is the best blend for its target. */
  method AlignPair(attack: seq<AttackRow>, clean: map<Axis, seq<CleanSample>>, maxError: real, minMlPidGap: real, sorts: Sorts)
    returns (paired: seq<PairedRow>, reports: seq<AxisReport>)
    requires AreSorts(sorts) && forall axis :: axis in clean
    ensures ReportsAccount(reports, |attack|, |paired|)
    ensures InTurn(attack, clean, maxError, minMlPidGap, sorts, paired, reports)
    ensures forall p :: p in paired ==> StoresBest(p, attack, clean[p.aligned.row.axis], minMlPidGap)
  {
    paired, reports := [], [];
    ghost var parts, expected := PartsAndReports(attack, clean, maxError, minMlPidGap, sorts);
    for n := 0 to |VALID_ANGLES|
      invariant paired == Joined(parts, n)
      invariant |reports| == n && forall i :: 0 <= i < n ==> reports[i] == expected[i]
    {
      var axis := VALID_ANGLES[n];
      var (kept, rep) := AlignAxis(OnAxis(attack, axis), clean[axis], maxError, minMlPidGap, sorts);
      JoinedNext(parts, n);
      paired := paired + kept;
      reports := reports + [rep];
    }
    ResultsInTurn(attack, clean, maxError, minMlPidGap, sorts, parts, reports);
    ResultsAccount(attack, clean, maxError, minMlPidGap, sorts, parts, reports);
    PartsStoreBest(attack, clean, maxError, minMlPidGap, sorts, parts);
  }

  lemma PartsAndReports(attack: seq<AttackRow>, clean: map<Axis, seq<CleanSample>>, maxError: real, minMlPidGap: real, sorts: Sorts)
    returns (parts: seq<seq<PairedRow>>, reports: seq<AxisReport>)
    requires forall axis :: axis in clean
    ensures |parts| == |reports| == |VALID_ANGLES|
    ensures forall i :: 0 <= i < |VALID_ANGLES| ==> (parts[i], reports[i]) == AxisResult(attack, clean, maxError, minMlPidGap, sorts, i)
  {
    parts := seq(3, i requires 0 <= i < 3 => AxisResult(attack, clean, maxError, minMlPidGap, sorts, i).0);
    reports := seq(3, i requires 0 <= i < 3 => AxisResult(attack, clean, maxError, minMlPidGap, sorts, i).1);
  }

  /** The rows and reports of roll, pitch and yaw, in that order. */
  ghost predicate InTurn(attack: seq<AttackRow>, clean: map<Axis, seq<CleanSample>>, maxError: real, minMlPidGap: real, sorts: Sorts,
                         paired: seq<PairedRow>, reports: seq<AxisReport>)
    requires forall axis :: axis in clean
  {
    var roll := AlignAxis(OnAxis(attack, Roll), clean[Roll], maxError, minMlPidGap, sorts);
    var pitch := AlignAxis(OnAxis(attack, Pitch), clean[Pitch], maxError, minMlPidGap, sorts);
    var yaw := AlignAxis(OnAxis(attack, Yaw), clean[Yaw], maxError, minMlPidGap, sorts);
    paired == roll.0 + pitch.0 + yaw.0 && reports == [roll.1, pitch.1, yaw.1]
  }

  lemma ResultsInTurn(attack: seq<AttackRow>, clean: map<Axis, seq<CleanSample>>, maxError: real, minMlPidGap: real, sorts: Sorts,
                      parts: seq<seq<PairedRow>>, reports: seq<AxisReport>)
    requires forall axis :: axis in clean
    requires |parts| == |reports| == |VALID_ANGLES|
    requires forall i :: 0 <= i < |VALID_ANGLES| ==> (parts[i], reports[i]) == AxisResult(attack, clean, maxError, minMlPidGap, sorts, i)
    ensures InTurn(attack, clean, maxError, minMlPidGap, sorts, parts[0] + parts[1] + parts[2], reports)
  {
  }

  lemma PartsStoreBest(attack: seq<AttackRow>, clean: map<Axis, seq<CleanSample>>, maxError: real, minMlPidGap: real, sorts: Sorts,
                       parts: seq<seq<PairedRow>>)
    requires AreSorts(sorts) && (forall axis :: axis in clean) && |parts| == |VALID_ANGLES|
    requires forall i :: 0 <= i < |VALID_ANGLES| ==> parts[i] == AxisResult(attack, clean, maxError, minMlPidGap, sorts, i).0
    ensures forall p :: p in parts[0] + parts[1] + parts[2] ==> StoresBest(p, attack, clean[p.aligned.row.axis], minMlPidGap)
  {
    forall i, p | 0 <= i < |VALID_ANGLES| && p in parts[i]
      ensures StoresBest(p, attack, clean[p.aligned.row.axis], minMlPidGap)
    {
      var axis := VALID_ANGLES[i];
      StoredLabelsAreBest(OnAxis(attack, axis), clean[axis], maxError, minMlPidGap, sorts, p);
      SelectMembers((r: AttackRow) => r.axis == axis, attack);
      assert p.aligned.row in OnAxis(attack, axis);
    }
  }

  /** The table align_pair writes trains on the same labels whether its stored alpha column or its
      continuous target column is selected. */
  method PairedTableTrainsAlike(attack: seq<AttackRow>, clean: map<Axis, seq<CleanSample>>, maxError: real, minMlPidGap: real,
                                sorts: Sorts, cap: real)
    returns (paired: seq<PairedRow>, fromStored: Labels, fromTarget: Labels)
    requires AreSorts(sorts) && forall axis :: axis in clean
    ensures fromStored == fromTarget && (fromStored.Labels? <==> 0.0 < cap <= 1.0)
    ensures fromTarget.Labels? ==>
              |fromTarget.alpha| == |paired|
              && forall i :: 0 <= i < |paired| ==>
                   IsBest(Sample(paired[i].aligned.sample.target, paired[i].aligned.row.yPid, paired[i].aligned.row.yMl), fromTarget.alpha[i], cap)
  {
    var reports;
    paired, reports := AlignPair(attack, clean, maxError, minMlPidGap, sorts);
    var rows := seq(|paired|, i requires 0 <= i < |paired| =>
                      Sample(paired[i].aligned.sample.target, paired[i].aligned.row.yPid, paired[i].aligned.row.yMl));
    var stored := seq(|paired|, i requires 0 <= i < |paired| => paired[i].alphaStar);
    forall i | 0 <= i < |paired|
      ensures StableGap(rows[i], minMlPidGap) && rows[i].yMl != rows[i].yPid && stored[i] == UncappedAlpha(rows[i])
    {
      assert paired[i] in paired;
      BestIsUncapped(rows[i], minMlPidGap, stored[i]);
    }
    fromStored, fromTarget := StoredColumnTrainsAlike(rows, stored, minMlPidGap, cap);
  }

  /** The best blend of a stable row is the uncapped label. */
  lemma BestIsUncapped(s: Sample, minMlPidGap: real, alpha: real)
    requires StableGap(s, minMlPidGap) && IsBest(s, alpha, 1.0)
    ensures s.yMl != s.yPid && alpha == UncappedAlpha(s)
  {
    AlphaStarIsTheMinimiser(s, minMlPidGap, 1.0, alpha);
    assert FusedError(s, alpha) <= FusedError(s, AlphaStar(s, minMlPidGap, 1.0));
  }

  lemma ResultsAccount(attack: seq<AttackRow>, clean: map<Axis, seq<CleanSample>>, maxError: real, minMlPidGap: real, sorts: Sorts,
                       parts: seq<seq<PairedRow>>, reports: seq<AxisReport>)
    requires AreSorts(sorts) && forall axis :: axis in clean
    requires |parts| == |reports| == |VALID_ANGLES|
    requires forall i :: 0 <= i < |VALID_ANGLES| ==> (parts[i], reports[i]) == AxisResult(attack, clean, maxError, minMlPidGap, sorts, i)
    ensures ReportsAccount(reports, |attack|, |parts[0]| + |parts[1]| + |parts[2]|)
  {
    forall n | 0 <= n < |VALID_ANGLES|
      ensures Accounted(reports[n]) && reports[n].keptRows == |parts[n]| && reports[n].attackRows == |OnAxis(attack, VALID_ANGLES[n])|
    {
      AxisAccounted(attack, clean, maxError, minMlPidGap, sorts, n);
    }
    AxesPartitionRows(attack);
  }

  /** The first n of the three parts, one after the other. */
  function Joined<T>(parts: seq<seq<T>>, n: nat): seq<T>
    requires n <= |parts| == 3
  {
    if n == 0 then [] else if n == 1 then parts[0] else if n == 2 then parts[0] + parts[1] else parts[0] + parts[1] + parts[2]
  }

  lemma JoinedNext<T>(parts: seq<seq<T>>, n: nat)
    requires n < |parts| == 3
    ensures Joined(parts, n + 1) == Joined(parts, n) + parts[n]
  {
    assert [] + parts[0] == parts[0];
  }

  /** build_clean_long for one axis: every clean row, at its normalised time. */
  function CleanAxis(ts: seq<real>, targets: seq<real>): (cs: seq<CleanSample>)
    requires CanNormalise(ts) && |targets| == |ts|
    ensures |cs| == |ts| && forall i :: 0 <= i < |ts| ==> cs[i] == CleanSample(NormalisedTime(ts, ts[i]), targets[i])
  {
    seq(|ts|, i requires 0 <= i < |ts| => CleanSample(NormalisedTime(ts, ts[i]), targets[i]))
  }

  /** Because both logs are stretched to [0, 1], the earliest and the latest attack rows always find a
      clean sample at their own normalised time, on every axis and whatever the tolerance. */
  lemma EndsAlwaysAlign(attackTs: seq<real>, cleanTs: seq<real>, targets: seq<real>, r: AttackRow, maxError: real)
    requires CanNormalise(attackTs) && CanNormalise(cleanTs) && |targets| == |cleanTs| && maxError > 0.0
    requires r.timestamp == Smallest(attackTs) || r.timestamp == Largest(attackTs)
    requires r.tNorm == NormalisedTime(attackTs, r.timestamp)
    ensures HasCloseSample(r, CleanAxis(cleanTs, targets), maxError)
  {
    NormalisedTimeOrder(attackTs, r.timestamp, r.timestamp);
    NormalisedTimeOrder(cleanTs, cleanTs[0], cleanTs[0]);
    var t := if r.timestamp == Smallest(attackTs) then Smallest(cleanTs) else Largest(cleanTs);
    var i :| 0 <= i < |cleanTs| && cleanTs[i] == t;
    var c := CleanAxis(cleanTs, targets)[i];
    assert c in CleanAxis(cleanTs, targets) && c.cleanTNorm == r.tNorm;
  }
}
