/** The train/validation split, per mission and pair, and why windowing after it leaks nothing. */
module Split {
  import opened Axes
  import opened Frames
  import opened Numeric
  import opened Optional
  import opened Preparation
  import opened Windows

  datatype SplitError = BadFraction | TooFewRows | NothingToSplit

  datatype SplitResult = Parts(train: seq<Row>, val: seq<Row>) | Rejected(error: SplitError)

  const MIN_ROWS := 20

  function SplitIndex(n: nat, valFraction: real): int {
    var idx := ((1.0 - valFraction) * n as real).Floor;
    var atLeastOne := if idx >= 1 then idx else 1;
    if atLeastOne <= n - 1 then atLeastOne else n - 1
  }

  /** time_split: both parts are non-empty and together they are the rows, in order. */
  function TimeSplit(rows: seq<Row>, valFraction: real): (r: SplitResult)
    ensures r == Rejected(BadFraction) <==> !(0.0 < valFraction < 1.0)
    ensures r == Rejected(TooFewRows) <==> 0.0 < valFraction < 1.0 && |rows| < 20
    ensures r.Rejected? <==> !(0.0 < valFraction < 1.0) || |rows| < MIN_ROWS
    ensures r.Parts? ==> r.train != [] && r.val != [] && r.train + r.val == rows
  {
    if !(0.0 < valFraction < 1.0) then Rejected(BadFraction)
    else if |rows| < MIN_ROWS then Rejected(TooFewRows)
    else
      var idx := SplitIndex(|rows|, valFraction);
      Parts(rows[..idx], rows[idx..])
  }

  /** The split never gives training more than its share, and within one row of it unless it has to
      leave a row for either side. */
  lemma SplitIndexIsShare(n: nat, valFraction: real)
    requires n >= MIN_ROWS && 0.0 < valFraction < 1.0
    ensures var idx := SplitIndex(n, valFraction); var share := (1.0 - valFraction) * n as real;
            && 1 <= idx <= n - 1
            && (share >= 1.0 ==> idx as real <= share < idx as real + 1.0)
            && (share < 1.0 ==> idx == 1)
  {
    var share := (1.0 - valFraction) * n as real;
    ShareInside(1.0 - valFraction, n as real);
    assert share < n as real;
  }

  /** Validation gets its fraction of the rows, rounded up, and at least one row stays for training. */
  lemma PartsAreShares(rows: seq<Row>, valFraction: real)
    requires TimeSplit(rows, valFraction).Parts?
    ensures var r := TimeSplit(rows, valFraction); var share := valFraction * |rows| as real;
            && |r.train| >= 1 && |r.val| >= 1 && |r.train| + |r.val| == |rows|
            && (|r.train| > 1 ==> share <= |r.val| as real < share + 1.0)
            && (|r.train| == 1 ==> share > (|rows| - 2) as real)
  {
    SplitIndexIsShare(|rows|, valFraction);
    Complement(valFraction, |rows| as real);
    var r := TimeSplit(rows, valFraction);
    assert |r.train| == SplitIndex(|rows|, valFraction);
  }

  lemma Complement(p: real, n: real)
    ensures (1.0 - p) * n == n - p * n
  {
  }

  lemma ShareInside(p: real, n: real)
    requires 0.0 < p < 1.0 && n > 0.0
    ensures 0.0 < p * n < n
  {
  }

  /** The split so far, extended by the parts of one more group. */
  function Extend(before: SplitResult, part: SplitResult): SplitResult {
    match before
    case Rejected(e) => before
    case Parts(train, val) =>
      match part
      case Rejected(e) => part
      case Parts(trainPart, valPart) => Parts(train + trainPart, val + valPart)
  }

  /** The split of the groups `keys` of the table, appended in group order. */
  ghost function SplitGroups(c: Columns, rows: seq<Row>, keys: seq<Key>, valFraction: real): SplitResult {
    if keys == [] then Parts([], [])
    else
      var n := |keys| - 1;
      Extend(SplitGroups(c, rows, keys[..n], valFraction), TimeSplit(GroupRows(c, rows, keys[n]), valFraction))
  }

  lemma SplitGroupsStep(c: Columns, rows: seq<Row>, keys: seq<Key>, valFraction: real, n: nat)
    requires n < |keys|
    ensures SplitGroups(c, rows, keys[..n + 1], valFraction) ==
            Extend(SplitGroups(c, rows, keys[..n], valFraction), TimeSplit(GroupRows(c, rows, keys[n]), valFraction))
  {
    assert keys[..n + 1][..n] == keys[..n];
  }

  method SplitGateDataframe(f: Frame, valFraction: real) returns (r: SplitResult)
    ensures !f.cols.mission ==> r == TimeSplit(f.rows, valFraction)
    ensures f.cols.mission && Keys(f.cols, f.rows) == [] ==> r == Rejected(NothingToSplit)
    ensures f.cols.mission && Keys(f.cols, f.rows) != [] ==> r == SplitGroups(f.cols, f.rows, Keys(f.cols, f.rows), valFraction)
  {
    if !f.cols.mission {
      return TimeSplit(f.rows, valFraction);
    }
    var trainParts: seq<Row> := [];
    var valParts: seq<Row> := [];
    var keys := Keys(f.cols, f.rows);
    for n := 0 to |keys|
      invariant SplitGroups(f.cols, f.rows, keys[..n], valFraction) == Parts(trainParts, valParts)
    {
      var part := TimeSplit(GroupRows(f.cols, f.rows, keys[n]), valFraction);
      SplitGroupsStep(f.cols, f.rows, keys, valFraction, n);
      if part.Rejected? {
        RejectionStays(f.cols, f.rows, keys, n + 1, valFraction);
        return part;
      }
      trainParts := trainParts + part.train;
      valParts := valParts + part.val;
    }
    assert keys[..|keys|] == keys;
    if keys == [] {
      return Rejected(NothingToSplit);
    }
    return Parts(trainParts, valParts);
  }

  lemma {:induction false} RejectionStays(c: Columns, rows: seq<Row>, keys: seq<Key>, n: nat, valFraction: real)
    requires n <= |keys| && SplitGroups(c, rows, keys[..n], valFraction).Rejected?
    ensures SplitGroups(c, rows, keys, valFraction) == SplitGroups(c, rows, keys[..n], valFraction)
    decreases |keys| - n
  {
    if n == |keys| {
      assert keys[..n] == keys;
    } else {
      SplitGroupsStep(c, rows, keys, valFraction, n);
      RejectionStays(c, rows, keys, n + 1, valFraction);
    }
  }

  /** Rows of one group regrouped under another key vanish. */
  lemma {:induction false} RegroupPart(c: Columns, part: seq<Row>, own: Key, k: Key)
    requires forall r :: r in part ==> KeyOf(c, r) == Some(own)
    ensures GroupRows(c, part, k) == if k == own then part else []
  {
    if part != [] {
      var n := |part| - 1;
      assert part[n] in part && forall r :: r in part[..n] ==> r in part;
      RegroupPart(c, part[..n], own, k);
      assert part == part[..n] + [part[n]];
    }
  }

  /** Of group `k`, the two sides hold exactly `part`, or nothing if the group was not handled. */
  ghost predicate HoldsPart(c: Columns, part: SplitResult, r: SplitResult, k: Key, handled: bool)
    requires r.Parts?
  {
    if handled then part == Parts(GroupRows(c, r.train, k), GroupRows(c, r.val, k))
    else GroupRows(c, r.train, k) == [] && GroupRows(c, r.val, k) == []
  }

  /** Each side of the split holds, of every group handled, exactly that group's part. */
  lemma {:induction false} GroupsOfParts(c: Columns, rows: seq<Row>, keys: seq<Key>, valFraction: real, k: Key)
    requires Distinct(keys)
    requires SplitGroups(c, rows, keys, valFraction).Parts?
    ensures HoldsPart(c, TimeSplit(GroupRows(c, rows, k), valFraction), SplitGroups(c, rows, keys, valFraction), k, k in keys)
  {
    if keys != [] {
      var n := |keys| - 1;
      var own := keys[n];
      var part := TimeSplit(GroupRows(c, rows, own), valFraction);
      GroupsOfParts(c, rows, keys[..n], valFraction, k);
      assert k in keys <==> k in keys[..n] || k == own;
      assert own !in keys[..n];
      PartBelongs(c, rows, own, part);
      if k == own {
        PartAdded(c, part, SplitGroups(c, rows, keys[..n], valFraction), own, part, k, false);
      } else {
        PartAdded(c, TimeSplit(GroupRows(c, rows, k), valFraction), SplitGroups(c, rows, keys[..n], valFraction), own, part, k, k in keys[..n]);
      }
    }
  }

  lemma PartBelongs(c: Columns, rows: seq<Row>, own: Key, part: SplitResult)
    requires part.Parts? && part.train + part.val == GroupRows(c, rows, own)
    ensures forall x :: x in part.train || x in part.val ==> KeyOf(c, x) == Some(own)
  {
    GroupRowsBelong(c, rows, own);
    forall x | x in part.train || x in part.val ensures KeyOf(c, x) == Some(own) {
      assert x in part.train + part.val;
    }
  }

  lemma PartAdded(c: Columns, expected: SplitResult, before: SplitResult, own: Key, part: SplitResult, k: Key, handled: bool)
    requires before.Parts? && part.Parts? && HoldsPart(c, expected, before, k, handled)
    requires forall x :: x in part.train || x in part.val ==> KeyOf(c, x) == Some(own)
    requires if handled then k != own else k == own ==> expected == part
    ensures HoldsPart(c, expected, Extend(before, part), k, handled || k == own)
  {
    SideAdded(c, before.train, part.train, own, k);
    SideAdded(c, before.val, part.val, own, k);
  }

  lemma SideAdded(c: Columns, before: seq<Row>, part: seq<Row>, own: Key, k: Key)
    requires forall x :: x in part ==> KeyOf(c, x) == Some(own)
    ensures GroupRows(c, before + part, k) == if k == own then GroupRows(c, before, k) + part else GroupRows(c, before, k)
  {
    RegroupPart(c, part, own, k);
    GroupRowsConcat(c, before, part, k);
  }

  /** A refused grouped split names the reason: a bad fraction, else a group too small. */
  lemma {:induction false} GroupedRefusal(c: Columns, rows: seq<Row>, keys: seq<Key>, valFraction: real)
    requires SplitGroups(c, rows, keys, valFraction).Rejected?
    ensures SplitGroups(c, rows, keys, valFraction).error == if 0.0 < valFraction < 1.0 then TooFewRows else BadFraction
  {
    var n := |keys| - 1;
    if SplitGroups(c, rows, keys[..n], valFraction).Rejected? {
      GroupedRefusal(c, rows, keys[..n], valFraction);
    }
  }

  /** The groups of two rows, the first of them no later in `keys` than the second. */
  ghost predicate KeysInOrder(c: Columns, keys: seq<Key>, a: Row, b: Row) {
    exists i, j :: 0 <= i <= j < |keys| && KeyOf(c, a) == Some(keys[i]) && KeyOf(c, b) == Some(keys[j])
  }

  ghost predicate GroupByGroup(c: Columns, keys: seq<Key>, s: seq<Row>) {
    forall p, q :: 0 <= p <= q < |s| ==> KeysInOrder(c, keys, s[p], s[q])
  }

  lemma AddGroupAtEnd(c: Columns, keys: seq<Key>, before: seq<Row>, part: seq<Row>)
    requires keys != [] && GroupByGroup(c, keys[..|keys| - 1], before)
    requires forall x :: x in part ==> KeyOf(c, x) == Some(keys[|keys| - 1])
    ensures GroupByGroup(c, keys, before + part)
  {
    var n := |keys| - 1;
    var s := before + part;
    forall p, q | 0 <= p <= q < |s| ensures KeysInOrder(c, keys, s[p], s[q]) {
      if q < |before| {
        var i, j :| 0 <= i <= j < n && KeyOf(c, before[p]) == Some(keys[..n][i]) && KeyOf(c, before[q]) == Some(keys[..n][j]);
        assert keys[..n][i] == keys[i] && keys[..n][j] == keys[j];
      } else {
        assert s[q] in part;
        if p < |before| {
          assert KeysInOrder(c, keys[..n], before[p], before[p]);
          var i, j :| 0 <= i <= j < n && KeyOf(c, before[p]) == Some(keys[..n][i]) && KeyOf(c, before[p]) == Some(keys[..n][j]);
          assert keys[..n][i] == keys[i];
        } else {
          assert s[p] in part;
        }
      }
    }
  }

  /** Both sides list the groups one after the other, in the order of the table. */
  lemma {:induction false} SidesGroupByGroup(c: Columns, rows: seq<Row>, keys: seq<Key>, valFraction: real)
    requires SplitGroups(c, rows, keys, valFraction).Parts?
    ensures GroupByGroup(c, keys, SplitGroups(c, rows, keys, valFraction).train)
    ensures GroupByGroup(c, keys, SplitGroups(c, rows, keys, valFraction).val)
  {
    if keys != [] {
      var n := |keys| - 1;
      var before := SplitGroups(c, rows, keys[..n], valFraction);
      var part := TimeSplit(GroupRows(c, rows, keys[n]), valFraction);
      SidesGroupByGroup(c, rows, keys[..n], valFraction);
      PartBelongs(c, rows, keys[n], part);
      AddGroupAtEnd(c, keys, before.train, part.train);
      AddGroupAtEnd(c, keys, before.val, part.val);
    }
  }

  /** `r` is what split_gate_dataframe returned for `f`. */
  ghost predicate IsSplit(f: Frame, valFraction: real, r: SplitResult) {
    && r.Parts?
    && r == if f.cols.mission then SplitGroups(f.cols, f.rows, Keys(f.cols, f.rows), valFraction)
            else TimeSplit(f.rows, valFraction)
  }

  /** Group by group, the training rows followed by the validation rows are the group, in order; with
      a mission column both sides hold rows of every group. */
  lemma SplitPartitionsGroups(f: Frame, valFraction: real, r: SplitResult, k: Key)
    requires IsSplit(f, valFraction, r)
    ensures GroupRows(f.cols, r.train, k) + GroupRows(f.cols, r.val, k) == GroupRows(f.cols, f.rows, k)
    ensures f.cols.mission && k in Keys(f.cols, f.rows) ==>
              GroupRows(f.cols, r.train, k) != [] && GroupRows(f.cols, r.val, k) != []
  {
    KeysComplete(f.cols, f.rows);
    if f.cols.mission {
      GroupsOfParts(f.cols, f.rows, Keys(f.cols, f.rows), valFraction, k);
    } else {
      GroupRowsConcat(f.cols, r.train, r.val, k);
    }
  }

  /** A training row and a validation row of grouped data are different rows, and within a group that
      is in time order the training row is no later. */
  lemma GroupedRowsApart(f: Frame, valFraction: real, r: SplitResult, a: Row, b: Row, ka: Key, kb: Key)
    requires IsSplit(f, valFraction, r) && DistinctIds(f.rows)
    requires a in GroupRows(f.cols, r.train, ka) && b in GroupRows(f.cols, r.val, kb)
    ensures a.id != b.id
    ensures ka == kb && InTimeOrder(GroupRows(f.cols, f.rows, ka)) ==> a.time <= b.time
  {
    SplitPartitionsGroups(f, valFraction, r, ka);
    SplitPartitionsGroups(f, valFraction, r, kb);
    if ka == kb {
      GroupKeepsDistinctIds(f.cols, f.rows, ka);
      OrderedApart(GroupRows(f.cols, r.train, ka), GroupRows(f.cols, r.val, ka), a, b);
    } else {
      DifferentGroupsApart(f, a, b, ka, kb);
    }
  }

  lemma OrderedApart(t: seq<Row>, v: seq<Row>, a: Row, b: Row)
    requires DistinctIds(t + v) && a in t && b in v
    ensures a.id != b.id
    ensures InTimeOrder(t + v) ==> a.time <= b.time
  {
    var i :| 0 <= i < |t| && t[i] == a;
    var j :| 0 <= j < |v| && v[j] == b;
    assert (t + v)[i] == a && (t + v)[|t| + j] == b;
  }

  lemma DifferentGroupsApart(f: Frame, a: Row, b: Row, ka: Key, kb: Key)
    requires DistinctIds(f.rows) && ka != kb
    requires a in GroupRows(f.cols, f.rows, ka) && b in GroupRows(f.cols, f.rows, kb)
    ensures a.id != b.id
  {
    GroupRowsBelong(f.cols, f.rows, ka);
    GroupRowsBelong(f.cols, f.rows, kb);
    var i :| 0 <= i < |f.rows| && f.rows[i] == a;
    var j :| 0 <= j < |f.rows| && f.rows[j] == b;
  }

  /* ---- leak freedom, from the raw table on ---- */

  /** `r` is the split of the table prepared for one axis from the raw rows. */
  ghost predicate IsPreparedSplit(p: Recipe, raw: seq<TableRow>, axis: Axis, valFraction: real, r: SplitResult) {
    && IsRecipe(p)
    && AxisTable(p, raw, axis).Some?
    && IsSplit(AxisTable(p, raw, axis).value, valFraction, r)
  }

  /** A training row and a validation row are different rows of the prepared table, and the training
      row is no later when they share a group. */
  lemma RowsKeptApart(p: Recipe, raw: seq<TableRow>, axis: Axis, valFraction: real, r: SplitResult, a: Row, b: Row, ka: Key, kb: Key)
    requires IsPreparedSplit(p, raw, axis, valFraction, r)
    requires a in GroupRows(p.cols, r.train, ka) && b in GroupRows(p.cols, r.val, kb)
    ensures a.id != b.id
    ensures ka == kb ==> a.time <= b.time
  {
    AxisTableInTimeOrder(p, raw, axis);
    GroupedRowsApart(AxisTable(p, raw, axis).value, valFraction, r, a, b, ka, kb);
  }

  /** Splitting and then windowing leaks nothing: a training window and a validation window share no
      row, and when they belong to the same group every row of the training window is no later than
      every row of the validation window. */
  lemma NoLeakBetweenWindows(p: Recipe, raw: seq<TableRow>, axis: Axis, valFraction: real, r: SplitResult,
                             length: nat, sort: seq<Row> -> seq<Row>, i: nat, j: nat)
    returns (ka: Key, kb: Key)
    requires IsPreparedSplit(p, raw, axis, valFraction, r) && IsSort(sort) && length >= 1
    requires i < |AllWindows(Groups(Frame(p.cols, r.train), length, sort), length)|
    requires j < |AllWindows(Groups(Frame(p.cols, r.val), length, sort), length)|
    ensures var tw := AllWindows(Groups(Frame(p.cols, r.train), length, sort), length)[i];
            var vw := AllWindows(Groups(Frame(p.cols, r.val), length, sort), length)[j];
            && StaysInGroup(Frame(p.cols, r.train), tw, length, ka)
            && StaysInGroup(Frame(p.cols, r.val), vw, length, kb)
            && (forall a, b :: a in tw && b in vw ==> a.id != b.id)
            && (ka == kb ==> forall a, b :: a in tw && b in vw ==> a.time <= b.time)
  {
    ka := WindowStaysInGroup(Frame(p.cols, r.train), length, sort, i);
    kb := WindowStaysInGroup(Frame(p.cols, r.val), length, sort, j);
    WindowsKeptApart(p, raw, axis, valFraction, r, length,
                     AllWindows(Groups(Frame(p.cols, r.train), length, sort), length)[i],
                     AllWindows(Groups(Frame(p.cols, r.val), length, sort), length)[j], ka, kb);
  }

  lemma WindowsKeptApart(p: Recipe, raw: seq<TableRow>, axis: Axis, valFraction: real, r: SplitResult,
                         length: nat, tw: Window, vw: Window, ka: Key, kb: Key)
    requires IsPreparedSplit(p, raw, axis, valFraction, r)
    requires StaysInGroup(Frame(p.cols, r.train), tw, length, ka)
    requires StaysInGroup(Frame(p.cols, r.val), vw, length, kb)
    ensures forall a, b :: a in tw && b in vw ==> a.id != b.id
    ensures ka == kb ==> forall a, b :: a in tw && b in vw ==> a.time <= b.time
  {
    forall a, b | a in tw && b in vw
      ensures a.id != b.id
      ensures ka == kb ==> a.time <= b.time
    {
      RowsKeptApart(p, raw, axis, valFraction, r, a, b, ka, kb);
    }
  }

  /* ---- what the split alone needs ---- */

  /** No training row is later than a validation row. */
  ghost predicate TrainFirst(r: SplitResult) {
    r.Parts? ==> forall a, b :: a in r.train && b in r.val ==> a.time <= b.time
  }

  /** Every position but the ends is the cut for some valid fraction. */
  lemma EveryCutHappens(n: nat, idx: nat) returns (valFraction: real)
    requires 1 <= idx < n
    ensures 0.0 < valFraction < 1.0 && SplitIndex(n, valFraction) == idx
  {
    var share := idx as real / n as real;
    ProperFraction(idx as real, n as real);
    valFraction := 1.0 - share;
    assert (1.0 - valFraction) * n as real == idx as real;
  }

  lemma {:induction false} NeighboursGiveOrder(rows: seq<Row>)
    requires forall i :: 0 < i < |rows| ==> rows[i - 1].time <= rows[i].time
    ensures InTimeOrder(rows)
  {
    if rows != [] {
      var n := |rows| - 1;
      NeighboursGiveOrder(rows[..n]);
      forall i | 0 <= i < n ensures rows[i].time <= rows[n].time {
        assert rows[..n][i].time <= rows[..n][n - 1].time;
      }
    }
  }

  /** A table out of time order has a fraction at which the split puts a later row into training. */
  lemma OutOfOrderLeaks(rows: seq<Row>) returns (valFraction: real)
    requires |rows| >= MIN_ROWS && !InTimeOrder(rows)
    ensures !TrainFirst(TimeSplit(rows, valFraction))
  {
    if forall i :: 0 < i < |rows| ==> rows[i - 1].time <= rows[i].time {
      NeighboursGiveOrder(rows);
    }
    var i :| 0 < i < |rows| && rows[i - 1].time > rows[i].time;
    valFraction := EveryCutHappens(|rows|, i);
    assert rows[..i][i - 1] in rows[..i] && rows[i..][0] in rows[i..];
  }

  /** Twenty rows in reverse, cut in the middle: every training row is later than every validation row. */
  lemma ReversedRowsLeak() returns (rows: seq<Row>)
    ensures |rows| == MIN_ROWS && !TrainFirst(TimeSplit(rows, 0.5))
  {
    rows := seq(MIN_ROWS, (i: nat) => Row(i, None, None, -(i as real), [], 0.0, 0.0, 0.0, 0.0));
    assert SplitIndex(MIN_ROWS, 0.5) == 10;
    assert rows[..10][0] in rows[..10] && rows[10..][0] in rows[10..];
  }

  /** The split keeps training before validation at every fraction exactly when the rows are in time
      order, or too few to be split at all. */
  lemma TrainFirstExactlyWhen(rows: seq<Row>)
    ensures (forall valFraction :: TrainFirst(TimeSplit(rows, valFraction))) <==> |rows| < MIN_ROWS || InTimeOrder(rows)
  {
    if |rows| >= MIN_ROWS && !InTimeOrder(rows) {
      var valFraction := OutOfOrderLeaks(rows);
    } else if |rows| >= MIN_ROWS {
      forall valFraction ensures TrainFirst(TimeSplit(rows, valFraction)) {
        OrderedTrainFirst(rows, valFraction);
      }
    }
  }

  lemma OrderedTrainFirst(rows: seq<Row>, valFraction: real)
    requires InTimeOrder(rows)
    ensures TrainFirst(TimeSplit(rows, valFraction))
  {
    var r := TimeSplit(rows, valFraction);
    if r.Parts? {
      forall a, b | a in r.train && b in r.val ensures a.time <= b.time {
        var i :| 0 <= i < |r.train| && r.train[i] == a;
        var j :| 0 <= j < |r.val| && r.val[j] == b;
        assert (r.train + r.val)[i] == a && (r.train + r.val)[|r.train| + j] == b;
      }
    }
  }

  /** Within every group, no training row is later than a validation row. */
  ghost predicate GroupsTrainFirst(c: Columns, r: SplitResult) {
    r.Parts? ==> forall k :: TrainFirst(Parts(GroupRows(c, r.train, k), GroupRows(c, r.val, k)))
  }

  /** time_split accepts the group. */
  predicate Splits(c: Columns, rows: seq<Row>, k: Key, valFraction: real) {
    0.0 < valFraction < 1.0 && |GroupRows(c, rows, k)| >= MIN_ROWS
  }

  lemma SplitsStep(c: Columns, rows: seq<Row>, keys: seq<Key>, valFraction: real, n: nat)
    requires n < |keys|
    ensures SplitGroups(c, rows, keys[..n + 1], valFraction).Parts? <==>
            SplitGroups(c, rows, keys[..n], valFraction).Parts? && Splits(c, rows, keys[n], valFraction)
  {
    SplitGroupsStep(c, rows, keys, valFraction, n);
  }

  lemma {:induction false} PrefixSplits(c: Columns, rows: seq<Row>, keys: seq<Key>, valFraction: real, n: nat)
    requires n <= |keys|
    ensures SplitGroups(c, rows, keys[..n], valFraction).Parts? <==> forall i :: 0 <= i < n ==> Splits(c, rows, keys[i], valFraction)
  {
    if n > 0 {
      PrefixSplits(c, rows, keys, valFraction, n - 1);
      SplitsStep(c, rows, keys, valFraction, n - 1);
    }
  }

  lemma SplitWhenAllSplit(c: Columns, rows: seq<Row>, keys: seq<Key>, valFraction: real)
    ensures SplitGroups(c, rows, keys, valFraction).Parts? <==> forall k :: k in keys ==> Splits(c, rows, k, valFraction)
  {
    PrefixSplits(c, rows, keys, valFraction, |keys|);
    assert keys[..|keys|] == keys;
  }

  /** The same for the grouped split: some group is too small to be split, or all are in time order. */
  lemma GroupsTrainFirstExactlyWhen(f: Frame)
    ensures (forall valFraction :: GroupsTrainFirst(f.cols, SplitGroups(f.cols, f.rows, Keys(f.cols, f.rows), valFraction))) <==>
            (exists k :: k in Keys(f.cols, f.rows) && |GroupRows(f.cols, f.rows, k)| < MIN_ROWS) || GroupsInTimeOrder(f)
  {
    KeysComplete(f.cols, f.rows);
    if GroupsInTimeOrder(f) {
      forall valFraction ensures GroupsTrainFirst(f.cols, SplitGroups(f.cols, f.rows, Keys(f.cols, f.rows), valFraction)) {
        OrderedGroupsTrainFirst(f, valFraction);
      }
    } else if k :| k in Keys(f.cols, f.rows) && |GroupRows(f.cols, f.rows, k)| < MIN_ROWS {
      forall valFraction ensures SplitGroups(f.cols, f.rows, Keys(f.cols, f.rows), valFraction).Rejected? {
        SplitWhenAllSplit(f.cols, f.rows, Keys(f.cols, f.rows), valFraction);
      }
    } else {
      var valFraction := UnsortedGroupLeaks(f);
    }
  }

  lemma OrderedGroupsTrainFirst(f: Frame, valFraction: real)
    requires GroupsInTimeOrder(f)
    ensures GroupsTrainFirst(f.cols, SplitGroups(f.cols, f.rows, Keys(f.cols, f.rows), valFraction))
  {
    var r := SplitGroups(f.cols, f.rows, Keys(f.cols, f.rows), valFraction);
    KeysComplete(f.cols, f.rows);
    if r.Parts? {
      forall k ensures TrainFirst(Parts(GroupRows(f.cols, r.train, k), GroupRows(f.cols, r.val, k))) {
        GroupsOfParts(f.cols, f.rows, Keys(f.cols, f.rows), valFraction, k);
        OrderedTrainFirst(GroupRows(f.cols, f.rows, k), valFraction);
      }
    }
  }

  lemma UnsortedGroupLeaks(f: Frame) returns (valFraction: real)
    requires forall k :: k in Keys(f.cols, f.rows) ==> |GroupRows(f.cols, f.rows, k)| >= MIN_ROWS
    requires !GroupsInTimeOrder(f)
    ensures !GroupsTrainFirst(f.cols, SplitGroups(f.cols, f.rows, Keys(f.cols, f.rows), valFraction))
  {
    var keys := Keys(f.cols, f.rows);
    KeysComplete(f.cols, f.rows);
    var k :| !InTimeOrder(GroupRows(f.cols, f.rows, k));
    assert k in keys;
    valFraction := OutOfOrderLeaks(GroupRows(f.cols, f.rows, k));
    SplitWhenAllSplit(f.cols, f.rows, keys, valFraction);
    GroupsOfParts(f.cols, f.rows, keys, valFraction, k);
  }
}
