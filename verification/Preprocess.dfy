/** preprocess_attack: cleaning of the interleaved attack table, and why the axes do not mix. */
module Preprocess {
  import opened Optional
  import opened Axes

  // positions in the list of numeric attack columns
  const COLUMNS := 26
  const TIMESTAMP := 0
  const Y_PID := 20
  const Y_ML := 21
  const RESIDUAL := 22
  const Y_SELECTED := 23
  const ATTACK_LABEL := 24
  const RECOVERY_MODE := 25

  type Cells = s: seq<Option<real>> | |s| == COLUMNS witness seq(COLUMNS, _ => None)

  function NoCells(): Cells { seq(COLUMNS, _ => None) }

  /** A table row: its angle type (missing when not one of the three), the numeric columns, and the
      remaining columns as text. */
  datatype Row = Row(axis: Option<Axis>, cells: Cells, other: string)

  datatype FillStrategy = NoFill | Ffill | FfillBfill

  datatype LabelPolicy = Keep | Clip | DropInvalid

  datatype Options = Options(fill: FillStrategy, dropExactDuplicates: bool, dropRemainingNan: bool, labels: LabelPolicy)

  /* ---- selection ---- */

  function Select(keep: Row -> bool, s: seq<Row>): (r: seq<Row>)
    ensures |r| <= |s|
  {
    if s == [] then []
    else
      var n := |s| - 1;
      var kept := Select(keep, s[..n]);
      if keep(s[n]) then kept + [s[n]] else kept
  }

  function OfAxis(a: Axis): Row -> bool { (r: Row) => r.axis == Some(a) }

  function Restrict(s: seq<Row>, a: Axis): seq<Row> { Select(OfAxis(a), s) }

  lemma {:induction false} SelectConcat(keep: Row -> bool, s: seq<Row>, t: seq<Row>)
    ensures Select(keep, s + t) == Select(keep, s) + Select(keep, t)
  {
    if t == [] {
      assert s + t == s;
    } else {
      var n := |t| - 1;
      SelectConcat(keep, s, t[..n]);
      assert (s + t)[..|s| + n] == s + t[..n];
      assert (s + t)[|s| + n] == t[n];
    }
  }

  lemma {:induction false} SelectCommutes(p: Row -> bool, q: Row -> bool, s: seq<Row>)
    ensures Select(p, Select(q, s)) == Select(q, Select(p, s))
  {
    if s != [] {
      var n := |s| - 1;
      SelectCommutes(p, q, s[..n]);
      SelectAppend(p, Select(q, s[..n]), s[n]);
      SelectAppend(q, Select(p, s[..n]), s[n]);
    }
  }

  lemma SelectAppend(keep: Row -> bool, s: seq<Row>, r: Row)
    ensures Select(keep, s + [r]) == if keep(r) then Select(keep, s) + [r] else Select(keep, s)
  {
    assert (s + [r])[..|s|] == s;
  }

  /* ---- sort by timestamp, then angle order ---- */

  function AngleOrder(a: Option<Axis>): nat {
    match a
    case Some(Roll) => 0
    case Some(Pitch) => 1
    case Some(Yaw) => 2
    case None => 3
  }

  /** Missing timestamps go last; the angle order breaks ties. */
  predicate After(r: Row, s: Row) {
    match (r.cells[TIMESTAMP], s.cells[TIMESTAMP])
    case (Some(x), Some(y)) => x > y || (x == y && AngleOrder(r.axis) > AngleOrder(s.axis))
    case (None, Some(_)) => true
    case (Some(_), None) => false
    case (None, None) => AngleOrder(r.axis) > AngleOrder(s.axis)
  }

  /** Before the rows that sort strictly after it: a multi-column sort is stable. */
  function Insert(s: seq<Row>, r: Row): seq<Row> {
    if s == [] then [r]
    else
      var n := |s| - 1;
      if After(s[n], r) then Insert(s[..n], r) + [s[n]] else s + [r]
  }

  function SortRows(s: seq<Row>): seq<Row> {
    if s == [] then [] else Insert(SortRows(s[..|s| - 1]), s[|s| - 1])
  }

  ghost predicate Sorted(s: seq<Row>) {
    forall i, j :: 0 <= i < j < |s| ==> !After(s[i], s[j])
  }

  lemma RowsOfAppend(s: seq<Row>, r: Row)
    ensures multiset(s + [r]) == multiset(s) + multiset{r}
  {
  }

  lemma {:induction false} InsertKeepsRows(s: seq<Row>, r: Row)
    ensures multiset(Insert(s, r)) == multiset(s) + multiset{r}
  {
    if s != [] {
      var n := |s| - 1;
      assert s == s[..n] + [s[n]];
      RowsOfAppend(s[..n], s[n]);
      if After(s[n], r) {
        InsertKeepsRows(s[..n], r);
        RowsOfAppend(Insert(s[..n], r), s[n]);
      } else {
        RowsOfAppend(s, r);
      }
    }
  }

  lemma {:induction false} InsertKeepsSorted(s: seq<Row>, r: Row)
    requires Sorted(s)
    ensures Sorted(Insert(s, r))
  {
    if s != [] {
      var n := |s| - 1;
      if After(s[n], r) {
        InsertKeepsSorted(s[..n], r);
        InsertKeepsRows(s[..n], r);
        var t := Insert(s[..n], r);
        forall i | 0 <= i < |t| ensures !After(t[i], s[n]) {
          assert t[i] in multiset(t);
          assert t[i] in s[..n] || t[i] == r;
        }
      }
    }
  }

  lemma {:induction false} SortKeepsRows(s: seq<Row>)
    ensures multiset(SortRows(s)) == multiset(s)
  {
    if s != [] {
      var n := |s| - 1;
      SortKeepsRows(s[..n]);
      InsertKeepsRows(SortRows(s[..n]), s[n]);
      RowsOfAppend(s[..n], s[n]);
      assert s == s[..n] + [s[n]];
    }
  }

  lemma {:induction false} SortRowsSorts(s: seq<Row>)
    ensures Sorted(SortRows(s))
  {
    if s != [] {
      var n := |s| - 1;
      SortRowsSorts(s[..n]);
      InsertKeepsSorted(SortRows(s[..n]), s[n]);
    }
  }

  /** Roll before pitch before yaw; rows without an axis last. */
  predicate AxesInOrder(a: Option<Axis>, b: Option<Axis>) {
    a == b || a == Some(Roll) || (a == Some(Pitch) && b != Some(Roll)) || (a == Some(Yaw) && b == None)
  }

  /** The earlier timestamp first, equal ones and missing ones by axis, a missing one after all others. */
  predicate ClockOrder(r: Row, s: Row) {
    match (r.cells[0], s.cells[0])
    case (Some(x), Some(y)) => x < y || (x == y && AxesInOrder(r.axis, s.axis))
    case (Some(_), None) => true
    case (None, Some(_)) => false
    case (None, None) => AxesInOrder(r.axis, s.axis)
  }

  lemma NotAfterIsClockOrder(r: Row, s: Row)
    ensures !After(r, s) <==> ClockOrder(r, s)
  {
  }

  /** The sorted table is in clock order. */
  lemma SortedByClock(s: seq<Row>, i: nat, j: nat)
    requires i < j < |SortRows(s)|
    ensures ClockOrder(SortRows(s)[i], SortRows(s)[j])
  {
    SortRowsSorts(s);
    NotAfterIsClockOrder(SortRows(s)[i], SortRows(s)[j]);
  }

  lemma InsertAppend(s: seq<Row>, x: Row, r: Row)
    ensures Insert(s + [x], r) == if After(x, r) then Insert(s, r) + [x] else s + [x] + [r]
  {
    assert (s + [x])[..|s|] == s;
  }

  lemma {:induction false} InsertCommutes(keep: Row -> bool, s: seq<Row>, r: Row)
    requires Sorted(s)
    ensures Select(keep, Insert(s, r)) == if keep(r) then Insert(Select(keep, s), r) else Select(keep, s)
  {
    if s == [] {
      SelectAppend(keep, [], r);
      assert [] + [r] == [r];
    } else {
      var n := |s| - 1;
      var rest, x := s[..n], s[n];
      if After(x, r) {
        InsertCommutes(keep, rest, r);
        SelectAppend(keep, Insert(rest, r), x);
        InsertAppend(Select(keep, rest), x, r);
      } else {
        SelectAppend(keep, s, r);
        if keep(r) {
          NothingAfter(keep, s, r);
          InsertAtEnd(Select(keep, s), r);
        }
      }
    }
  }

  /** If the last row of a sorted table does not sort after r, no selected row does. */
  lemma {:induction false} NothingAfter(keep: Row -> bool, s: seq<Row>, r: Row)
    requires Sorted(s) && s != [] && !After(s[|s| - 1], r)
    ensures forall x :: x in Select(keep, s) ==> !After(x, r)
  {
    forall x | x in Select(keep, s) ensures !After(x, r) {
      SelectMember(keep, s, x);
      var i :| 0 <= i < |s| && s[i] == x;
    }
  }

  lemma {:induction false} SelectMember(keep: Row -> bool, s: seq<Row>, x: Row)
    ensures x in Select(keep, s) <==> x in s && keep(x)
  {
    if s != [] {
      var n := |s| - 1;
      SelectMember(keep, s[..n], x);
      assert s == s[..n] + [s[n]];
    }
  }

  lemma InsertAtEnd(s: seq<Row>, r: Row)
    requires forall x :: x in s ==> !After(x, r)
    ensures Insert(s, r) == s + [r]
  {
    if s != [] {
      assert s[|s| - 1] in s;
    }
  }

  lemma SortAppend(s: seq<Row>, r: Row)
    ensures SortRows(s + [r]) == Insert(SortRows(s), r)
  {
    assert (s + [r])[..|s|] == s;
  }

  /** Sorting commutes with keeping only some rows. */
  lemma {:induction false} SortCommutes(keep: Row -> bool, s: seq<Row>)
    ensures Select(keep, SortRows(s)) == SortRows(Select(keep, s))
  {
    if s != [] {
      var n := |s| - 1;
      SortCommutes(keep, s[..n]);
      SortRowsSorts(s[..n]);
      InsertCommutes(keep, SortRows(s[..n]), s[n]);
      SortAppend(Select(keep, s[..n]), s[n]);
    }
  }

  function AtClock(t: Option<real>, a: Option<Axis>): Row -> bool {
    (r: Row) => r.cells[0] == t && r.axis == a
  }

  /** Rows of one axis with one timestamp keep their order. */
  lemma SortIsStable(s: seq<Row>, t: Option<real>, a: Option<Axis>)
    ensures Select(AtClock(t, a), SortRows(s)) == Select(AtClock(t, a), s)
  {
    var tied := Select(AtClock(t, a), s);
    SortCommutes(AtClock(t, a), s);
    forall r | r in tied ensures r.cells[0] == t && r.axis == a {
      SelectMember(AtClock(t, a), s, r);
    }
    TiesStay(tied, t, a);
  }

  lemma {:induction false} TiesStay(s: seq<Row>, t: Option<real>, a: Option<Axis>)
    requires forall r :: r in s ==> r.cells[0] == t && r.axis == a
    ensures SortRows(s) == s
  {
    if s != [] {
      var n := |s| - 1;
      assert s == s[..n] + [s[n]];
      TiesStay(s[..n], t, a);
      InsertAtEnd(s[..n], s[n]);
    }
  }

  /* ---- exact duplicates ---- */

  function DropDuplicates(s: seq<Row>): (r: seq<Row>)
    ensures |r| <= |s|
  {
    if s == [] then []
    else
      var n := |s| - 1;
      if s[n] in s[..n] then DropDuplicates(s[..n]) else DropDuplicates(s[..n]) + [s[n]]
  }

  lemma DropAppend(s: seq<Row>, r: Row)
    ensures DropDuplicates(s + [r]) == if r in s then DropDuplicates(s) else DropDuplicates(s) + [r]
  {
    assert (s + [r])[..|s|] == s;
  }

  lemma {:induction false} DropDuplicatesCommutes(keep: Row -> bool, s: seq<Row>)
    ensures Select(keep, DropDuplicates(s)) == DropDuplicates(Select(keep, s))
  {
    if s != [] {
      var n := |s| - 1;
      DropDuplicatesCommutes(keep, s[..n]);
      SelectMember(keep, s[..n], s[n]);
      SelectAppend(keep, DropDuplicates(s[..n]), s[n]);
      DropAppend(Select(keep, s[..n]), s[n]);
    }
  }

  /** Of every distinct row the first occurrence stays, in order. */
  lemma {:induction false} FirstOccurrencesStay(s: seq<Row>)
    ensures forall r :: r in DropDuplicates(s) <==> r in s
    ensures forall i, j :: 0 <= i < j < |DropDuplicates(s)| ==> DropDuplicates(s)[i] != DropDuplicates(s)[j]
  {
    if s != [] {
      var n := |s| - 1;
      FirstOccurrencesStay(s[..n]);
      assert s == s[..n] + [s[n]];
      var kept := DropDuplicates(s[..n]);
      forall i | 0 <= i < |kept| && s[n] !in s[..n] ensures kept[i] != s[n] {
        assert kept[i] in kept;
      }
    }
  }

  /** Positions p and q hold the first occurrences of two rows. */
  ghost predicate FirstAt(s: seq<Row>, p: nat, r: Row) {
    p < |s| && s[p] == r && r !in s[..p]
  }

  lemma {:induction false} OccurrencesInOrder(s: seq<Row>, i: nat, j: nat) returns (p: nat, q: nat)
    requires i <= j < |DropDuplicates(s)|
    ensures FirstAt(s, p, DropDuplicates(s)[i]) && FirstAt(s, q, DropDuplicates(s)[j])
    ensures p <= q && (i < j ==> p < q)
  {
    var n := |s| - 1;
    var kept := DropDuplicates(s[..n]);
    if j < |kept| {
      p, q := OccurrencesInOrder(s[..n], i, j);
      assert s[..n][..p] == s[..p] && s[..n][..q] == s[..q];
    } else {
      q := n;
      p := n;
      if i < |kept| {
        var p';
        p, p' := OccurrencesInOrder(s[..n], i, i);
        assert s[..n][..p] == s[..p];
      }
    }
  }

  lemma DeduplicatedByClock(o: Options, s: seq<Row>, i: nat, j: nat)
    requires i < j < |Deduplicated(o, SortRows(s))|
    ensures ClockOrder(Deduplicated(o, SortRows(s))[i], Deduplicated(o, SortRows(s))[j])
  {
    if o.dropExactDuplicates {
      var p, q := OccurrencesInOrder(SortRows(s), i, j);
      SortedByClock(s, p, q);
    } else {
      SortedByClock(s, i, j);
    }
  }

  /* ---- filling ---- */

  /** The last value present in column c on axis a, looking back from the end of `s`. */
  function LastPresent(s: seq<Row>, a: Option<Axis>, c: nat): Option<real>
    requires c < COLUMNS
  {
    if s == [] then None
    else
      var r := s[|s| - 1];
      if r.axis == a && r.cells[c].Some? then r.cells[c] else LastPresent(s[..|s| - 1], a, c)
  }

  /** The first value present in column c on axis a, looking forward from the start of `s`. */
  function FirstPresent(s: seq<Row>, a: Option<Axis>, c: nat): Option<real>
    requires c < COLUMNS
  {
    if s == [] then None
    else if s[0].axis == a && s[0].cells[c].Some? then s[0].cells[c]
    else FirstPresent(s[1..], a, c)
  }

  function LastCells(s: seq<Row>, a: Option<Axis>): Cells {
    seq(COLUMNS, c requires 0 <= c < COLUMNS => LastPresent(s, a, c))
  }

  function FirstCells(s: seq<Row>, a: Option<Axis>): Cells {
    seq(COLUMNS, c requires 0 <= c < COLUMNS => FirstPresent(s, a, c))
  }

  /** Forward fill, grouped by angle type. */
  function ForwardFill(s: seq<Row>): (r: seq<Row>)
    ensures |r| == |s|
  {
    if s == [] then []
    else
      var n := |s| - 1;
      ForwardFill(s[..n]) + [s[n].(cells := LastCells(s, s[n].axis))]
  }

  function BackwardFill(s: seq<Row>): (r: seq<Row>)
    ensures |r| == |s|
  {
    if s == [] then [] else [s[0].(cells := FirstCells(s, s[0].axis))] + BackwardFill(s[1..])
  }

  function Fill(strategy: FillStrategy, s: seq<Row>): (r: seq<Row>)
    ensures |r| == |s|
  {
    match strategy
    case NoFill => s
    case Ffill => ForwardFill(s)
    case FfillBfill => BackwardFill(ForwardFill(s))
  }

  /** `v` is the last value present in column c at or before row i on the axis of row i. */
  ghost predicate IsLastAtOrBefore(s: seq<Row>, i: nat, c: nat, v: Option<real>)
    requires i < |s| && c < COLUMNS
  {
    match v
    case None => forall j :: 0 <= j <= i && s[j].axis == s[i].axis ==> s[j].cells[c] == None
    case Some(_) =>
      exists j :: 0 <= j <= i && s[j].axis == s[i].axis && s[j].cells[c] == v
        && forall k :: j < k <= i && s[k].axis == s[i].axis ==> s[k].cells[c] == None
  }

  lemma {:induction false} LastPresentMeaning(s: seq<Row>, a: Option<Axis>, c: nat) returns (j: int)
    requires c < COLUMNS
    ensures -1 <= j < |s|
    ensures j == -1 <==> LastPresent(s, a, c) == None
    ensures j >= 0 ==> s[j].axis == a && s[j].cells[c].Some? && LastPresent(s, a, c) == s[j].cells[c]
    ensures forall k :: j < k < |s| && s[k].axis == a ==> s[k].cells[c] == None
  {
    if s == [] {
      j := -1;
    } else {
      var n := |s| - 1;
      if s[n].axis == a && s[n].cells[c].Some? {
        j := n;
      } else {
        j := LastPresentMeaning(s[..n], a, c);
      }
    }
  }

  lemma {:induction false} ForwardFillAt(s: seq<Row>, i: nat)
    requires i < |s|
    ensures ForwardFill(s)[i] == s[i].(cells := LastCells(s[..i + 1], s[i].axis))
  {
    var n := |s| - 1;
    if i < n {
      ForwardFillAt(s[..n], i);
      assert s[..n][..i + 1] == s[..i + 1];
    } else {
      assert s[..n + 1] == s;
    }
  }

  /** Under forward fill every cell of the interleaved table becomes the last present value of its
      column on the same axis at or before that row; axis and text columns stay. */
  lemma ForwardFillMeaning(s: seq<Row>, i: nat, c: nat)
    requires i < |s| && c < COLUMNS
    ensures IsLastAtOrBefore(s, i, c, ForwardFill(s)[i].cells[c])
    ensures s[i].cells[c].Some? ==> ForwardFill(s)[i].cells[c] == s[i].cells[c]
    ensures ForwardFill(s)[i].axis == s[i].axis && ForwardFill(s)[i].other == s[i].other
  {
    ForwardFillAt(s, i);
    LastPresentIsLast(s, i, c);
    LastPresentOfPresent(s, i, c);
  }

  lemma LastPresentOfPresent(s: seq<Row>, i: nat, c: nat)
    requires i < |s| && c < COLUMNS
    ensures s[i].cells[c].Some? ==> LastPresent(s[..i + 1], s[i].axis, c) == s[i].cells[c]
  {
    assert s[..i + 1][i] == s[i];
  }

  lemma LastPresentIsLast(s: seq<Row>, i: nat, c: nat)
    requires i < |s| && c < COLUMNS
    ensures IsLastAtOrBefore(s, i, c, LastPresent(s[..i + 1], s[i].axis, c))
  {
    var t := s[..i + 1];
    var j := LastPresentMeaning(t, s[i].axis, c);
    forall k | j < k <= i && s[k].axis == s[i].axis ensures s[k].cells[c] == None {
      assert t[k] == s[k];
    }
    if j >= 0 {
      assert t[j] == s[j];
    }
  }

  /** In the sorted table forward fill looks back in time: a filled value was recorded on the same axis at
      an earlier or equal timestamp, and nothing was recorded for the cell in between. */
  lemma FillLooksBackInTime(o: Options, s: seq<Row>, i: nat, c: nat) returns (j: int)
    requires c < COLUMNS && i < |Deduplicated(o, SortRows(s))|
    ensures var t := Deduplicated(o, SortRows(s));
            && -1 <= j <= i
            && (j == -1 <==> ForwardFill(t)[i].cells[c] == None)
            && (j >= 0 ==> t[j].axis == t[i].axis && t[j].cells[c] == ForwardFill(t)[i].cells[c])
            && (j >= 0 && t[i].cells[0].Some? ==> t[j].cells[0].Some? && t[j].cells[0].value <= t[i].cells[0].value)
            && forall k :: j < k <= i && t[k].axis == t[i].axis ==> t[k].cells[c] == None
  {
    var t := Deduplicated(o, SortRows(s));
    ForwardFillAt(t, i);
    j := LastPresentMeaning(t[..i + 1], t[i].axis, c);
    forall k | j < k <= i && t[k].axis == t[i].axis ensures t[k].cells[c] == None {
      assert t[..i + 1][k] == t[k];
    }
    if 0 <= j < i {
      DeduplicatedByClock(o, s, j, i);
    }
  }

  /** `v` is the first value present in column c after row i on the axis of row i. */
  ghost predicate IsFirstAfter(s: seq<Row>, i: nat, c: nat, v: Option<real>)
    requires i < |s| && c < COLUMNS
  {
    match v
    case None => forall j :: i < j < |s| && s[j].axis == s[i].axis ==> s[j].cells[c] == None
    case Some(_) =>
      exists j :: i < j < |s| && s[j].axis == s[i].axis && s[j].cells[c] == v
        && forall k :: i < k < j && s[k].axis == s[i].axis ==> s[k].cells[c] == None
  }

  lemma {:induction false} FirstPresentMeaning(s: seq<Row>, a: Option<Axis>, c: nat) returns (j: nat)
    requires c < COLUMNS
    ensures j <= |s|
    ensures j == |s| <==> FirstPresent(s, a, c) == None
    ensures j < |s| ==> s[j].axis == a && s[j].cells[c].Some? && FirstPresent(s, a, c) == s[j].cells[c]
    ensures forall k :: 0 <= k < j && s[k].axis == a ==> s[k].cells[c] == None
  {
    if s == [] {
      j := 0;
    } else if s[0].axis == a && s[0].cells[c].Some? {
      j := 0;
    } else {
      j := FirstPresentMeaning(s[1..], a, c);
      forall k | 0 <= k < j + 1 && s[k].axis == a ensures s[k].cells[c] == None {
        if k > 0 {
          assert s[1..][k - 1] == s[k];
        }
      }
      j := j + 1;
    }
  }

  /** With both fills a cell gets the last value at or before its row, or else the first one after it. */
  lemma FillBothMeaning(s: seq<Row>, i: nat, c: nat)
    requires i < |s| && c < COLUMNS
    ensures var v := Fill(FfillBfill, s)[i].cells[c];
            if exists j :: 0 <= j <= i && s[j].axis == s[i].axis && s[j].cells[c].Some? then IsLastAtOrBefore(s, i, c, v)
            else IsFirstAfter(s, i, c, v)
  {
    var f := ForwardFill(s);
    BackwardFillAt(f, i);
    ForwardFillMeaning(s, i, c);
    var j := FirstPresentMeaning(f[i..], f[i].axis, c);
    if f[i].cells[c].Some? {
      assert f[i..][0] == f[i];
      assert j == 0;
    } else {
      var m := i + j;
      MissingUpTo(s, i, c, f[i..], j);
      if m < |s| {
        assert f[i..][j] == f[m];
        ForwardFillMeaning(s, m, c);
        FirstValueAt(s, c, m);
      }
      FirstAfterIs(s, i, c, m, if m < |s| then f[m].cells[c] else None);
    }
  }

  lemma FirstAfterIs(s: seq<Row>, i: nat, c: nat, m: nat, v: Option<real>)
    requires c < COLUMNS && i < m <= |s|
    requires forall k :: 0 <= k < m && s[k].axis == s[i].axis ==> s[k].cells[c] == None
    requires if m < |s| then s[m].axis == s[i].axis && s[m].cells[c] == v && v.Some? else v == None
    ensures IsFirstAfter(s, i, c, v)
  {
  }

  lemma MissingUpTo(s: seq<Row>, i: nat, c: nat, tail: seq<Row>, j: nat)
    requires i < |s| && c < COLUMNS && ForwardFill(s)[i].cells[c] == None && i + j <= |s|
    requires tail == ForwardFill(s)[i..]
    requires forall k :: 0 <= k < j && tail[k].axis == s[i].axis ==> tail[k].cells[c] == None
    ensures forall k :: 0 <= k < i + j && s[k].axis == s[i].axis ==> s[k].cells[c] == None
  {
    forall k | 0 <= k < i + j && s[k].axis == s[i].axis ensures s[k].cells[c] == None {
      if k > i {
        assert tail[k - i] == ForwardFill(s)[k];
        MissingAfterFill(s, k, k, c);
      } else {
        MissingAfterFill(s, k, i, c);
      }
    }
  }

  /** What is missing after the forward fill was missing before it, and before that on the same axis. */
  lemma MissingAfterFill(s: seq<Row>, k: nat, i: nat, c: nat)
    requires k <= i < |s| && c < COLUMNS
    ensures ForwardFill(s)[i].axis == s[i].axis
    ensures ForwardFill(s)[i].cells[c] == None && s[k].axis == s[i].axis ==> s[k].cells[c] == None
  {
    ForwardFillMeaning(s, i, c);
  }

  lemma FirstValueAt(s: seq<Row>, c: nat, m: nat)
    requires m < |s| && c < COLUMNS && ForwardFill(s)[m].cells[c].Some?
    requires forall k :: 0 <= k < m && s[k].axis == s[m].axis ==> s[k].cells[c] == None
    ensures s[m].cells[c] == ForwardFill(s)[m].cells[c]
  {
    var v := ForwardFill(s)[m].cells[c];
    ForwardFillMeaning(s, m, c);
    assert IsLastAtOrBefore(s, m, c, v);
    var p :| 0 <= p <= m && s[p].axis == s[m].axis && s[p].cells[c] == v;
  }

  /** Column c has no value at all on axis a. */
  ghost predicate NeverPresent(s: seq<Row>, a: Option<Axis>, c: nat)
    requires c < COLUMNS
  {
    forall j :: 0 <= j < |s| && s[j].axis == a ==> s[j].cells[c] == None
  }

  lemma {:induction false} FirstPresentNone(s: seq<Row>, a: Option<Axis>, c: nat)
    requires c < COLUMNS
    ensures FirstPresent(s, a, c) == None <==> NeverPresent(s, a, c)
  {
    if s != [] {
      FirstPresentNone(s[1..], a, c);
      assert forall j :: 0 <= j < |s| - 1 ==> s[1..][j] == s[j + 1];
      if NeverPresent(s[1..], a, c) && (s[0].axis == a ==> s[0].cells[c] == None) {
        forall j | 0 <= j < |s| && s[j].axis == a ensures s[j].cells[c] == None {
          if j > 0 {
            assert s[1..][j - 1] == s[j];
          }
        }
      }
    }
  }

  lemma {:induction false} BackwardFillAt(s: seq<Row>, i: nat)
    requires i < |s|
    ensures BackwardFill(s)[i] == s[i].(cells := FirstCells(s[i..], s[i].axis))
  {
    if i > 0 {
      BackwardFillAt(s[1..], i - 1);
      assert s[1..][i - 1..] == s[i..];
    } else {
      assert s[0..] == s;
    }
  }

  /** After forward and backward fill a cell is still missing exactly when its column never has a
      value on that row's axis. */
  lemma StillMissingExactlyWhen(s: seq<Row>, i: nat, c: nat)
    requires i < |s| && c < COLUMNS
    ensures Fill(FfillBfill, s)[i].cells[c] == None <==> NeverPresent(s, s[i].axis, c)
  {
    var f := ForwardFill(s);
    BackwardFillAt(f, i);
    FirstPresentNone(f[i..], f[i].axis, c);
    ForwardFillMeaning(s, i, c);
    if NeverPresent(s, s[i].axis, c) {
      forall j | 0 <= j < |f[i..]| && f[i..][j].axis == s[i].axis ensures f[i..][j].cells[c] == None {
        ForwardFillMeaning(s, i + j, c);
      }
    }
    if NeverPresent(f[i..], s[i].axis, c) {
      forall j | 0 <= j < |s| && s[j].axis == s[i].axis ensures s[j].cells[c] == None {
        if j >= i {
          ForwardFillMeaning(s, j, c);
          assert f[i..][j - i] == f[j];
        } else {
          assert f[i..][0] == f[i];
        }
      }
    }
  }

  lemma {:induction false} LastPresentOwnAxis(s: seq<Row>, a: Axis, c: nat)
    requires c < COLUMNS
    ensures LastPresent(Restrict(s, a), Some(a), c) == LastPresent(s, Some(a), c)
  {
    if s != [] {
      var n := |s| - 1;
      LastPresentOwnAxis(s[..n], a, c);
      if s[n].axis == Some(a) {
        assert Restrict(s, a)[..|Restrict(s, a)| - 1] == Restrict(s[..n], a);
      }
    }
  }

  lemma {:induction false} FirstPresentOwnAxis(s: seq<Row>, a: Axis, c: nat)
    requires c < COLUMNS
    ensures FirstPresent(Restrict(s, a), Some(a), c) == FirstPresent(s, Some(a), c)
  {
    if s != [] {
      FirstPresentOwnAxis(s[1..], a, c);
      RestrictHead(s, a);
    }
  }

  lemma RestrictHead(s: seq<Row>, a: Axis)
    requires s != []
    ensures Restrict(s, a) == if s[0].axis == Some(a) then [s[0]] + Restrict(s[1..], a) else Restrict(s[1..], a)
  {
    SelectConcat(OfAxis(a), [s[0]], s[1..]);
    assert [s[0]] + s[1..] == s;
    SelectAppend(OfAxis(a), [], s[0]);
    assert [] + [s[0]] == [s[0]];
  }

  lemma {:induction false} ForwardFillKeepsAxes(s: seq<Row>, a: Axis)
    ensures Restrict(ForwardFill(s), a) == ForwardFill(Restrict(s, a))
  {
    if s != [] {
      var n := |s| - 1;
      var r := s[n];
      ForwardFillKeepsAxes(s[..n], a);
      SelectAppend(OfAxis(a), ForwardFill(s[..n]), r.(cells := LastCells(s, r.axis)));
      if r.axis == Some(a) {
        var kept := Restrict(s, a);
        assert kept[..|kept| - 1] == Restrict(s[..n], a);
        forall c | 0 <= c < COLUMNS ensures LastPresent(kept, Some(a), c) == LastPresent(s, Some(a), c) {
          LastPresentOwnAxis(s, a, c);
        }
        assert LastCells(kept, Some(a)) == LastCells(s, Some(a));
      }
    }
  }

  lemma {:induction false} BackwardFillKeepsAxes(s: seq<Row>, a: Axis)
    ensures Restrict(BackwardFill(s), a) == BackwardFill(Restrict(s, a))
  {
    if s != [] {
      var r := s[0];
      BackwardFillKeepsAxes(s[1..], a);
      RestrictHead(s, a);
      RestrictHead(BackwardFill(s), a);
      assert BackwardFill(s)[1..] == BackwardFill(s[1..]);
      if r.axis == Some(a) {
        var kept := Restrict(s, a);
        assert kept[1..] == Restrict(s[1..], a);
        forall c | 0 <= c < COLUMNS ensures FirstPresent(kept, Some(a), c) == FirstPresent(s, Some(a), c) {
          FirstPresentOwnAxis(s, a, c);
        }
        assert FirstCells(kept, Some(a)) == FirstCells(s, Some(a));
      }
    }
  }

  lemma FillKeepsAxes(strategy: FillStrategy, s: seq<Row>, a: Axis)
    ensures Restrict(Fill(strategy, s), a) == Fill(strategy, Restrict(s, a))
  {
    match strategy
    case NoFill =>
    case Ffill => ForwardFillKeepsAxes(s, a);
    case FfillBfill =>
      ForwardFillKeepsAxes(s, a);
      BackwardFillKeepsAxes(ForwardFill(s), a);
  }

  /* ---- binary labels ---- */

  predicate IsBinary(v: Option<real>) { v == Some(0.0) || v == Some(1.0) }

  function HasBinary(column: nat): Row -> bool
    requires column < COLUMNS
  {
    (r: Row) => column < COLUMNS && IsBinary(r.cells[column])
  }

  /** Missing becomes 0; truncation to an integer and clipping to 0..1 leave 1 from 1.0 up. */
  function ClipLabel(v: Option<real>): Option<real> {
    if v.Some? && v.value >= 1.0 then Some(1.0) else Some(0.0)
  }

  function ClipRow(column: nat, r: Row): Row
    requires column < COLUMNS
  {
    r.(cells := r.cells[column := ClipLabel(r.cells[column])])
  }

  function ClipRows(column: nat, s: seq<Row>): (r: seq<Row>)
    requires column < COLUMNS
    ensures |r| == |s|
  {
    if s == [] then [] else ClipRows(column, s[..|s| - 1]) + [ClipRow(column, s[|s| - 1])]
  }

  function ApplyLabels(policy: LabelPolicy, column: nat, s: seq<Row>): (r: seq<Row>)
    requires column < COLUMNS
    ensures |r| <= |s|
  {
    match policy
    case Keep => s
    case Clip => ClipRows(column, s)
    case DropInvalid => Select(HasBinary(column), s)
  }

  lemma {:induction false} ClipKeepsAxes(column: nat, s: seq<Row>, a: Axis)
    requires column < COLUMNS
    ensures Restrict(ClipRows(column, s), a) == ClipRows(column, Restrict(s, a))
  {
    if s != [] {
      var n := |s| - 1;
      ClipKeepsAxes(column, s[..n], a);
      SelectAppend(OfAxis(a), ClipRows(column, s[..n]), ClipRow(column, s[n]));
      if s[n].axis == Some(a) {
        var kept := Restrict(s, a);
        assert kept[..|kept| - 1] == Restrict(s[..n], a);
      }
    }
  }

  lemma LabelsKeepAxes(policy: LabelPolicy, column: nat, s: seq<Row>, a: Axis)
    requires column < COLUMNS
    ensures Restrict(ApplyLabels(policy, column, s), a) == ApplyLabels(policy, column, Restrict(s, a))
  {
    match policy
    case Keep =>
    case Clip => ClipKeepsAxes(column, s, a);
    case DropInvalid => SelectCommutes(OfAxis(a), HasBinary(column), s);
  }

  /* ---- the pipeline ---- */

  function HasAxis(): Row -> bool { (r: Row) => r.axis.Some? }

  function NothingMissing(): Row -> bool { (r: Row) => forall c :: 0 <= c < COLUMNS ==> r.cells[c].Some? }

  function HasKeys(): Row -> bool {
    (r: Row) => r.cells[TIMESTAMP].Some? && r.axis.Some? && r.cells[Y_PID].Some? && r.cells[Y_ML].Some?
                && r.cells[RESIDUAL].Some? && r.cells[Y_SELECTED].Some?
  }

  function Deduplicated(o: Options, s: seq<Row>): (r: seq<Row>)
    ensures |r| <= |s|
  {
    if o.dropExactDuplicates then DropDuplicates(s) else s
  }

  function Complete(o: Options, s: seq<Row>): (r: seq<Row>)
    ensures |r| <= |s|
  {
    if o.dropRemainingNan then Select(NothingMissing(), s) else s
  }

  function Labelled(o: Options, s: seq<Row>): (r: seq<Row>)
    ensures |r| <= |s|
  {
    ApplyLabels(o.labels, RECOVERY_MODE, ApplyLabels(o.labels, ATTACK_LABEL, s))
  }

  function Preprocessed(o: Options, s: seq<Row>): seq<Row> {
    SortRows(Select(HasKeys(), Labelled(o, Complete(o, Fill(o.fill, Deduplicated(o, SortRows(Select(HasAxis(), s))))))))
  }

  /** The axes do not mix: cleaning the whole table and then taking one axis is cleaning that axis
      alone, for every fill strategy, label policy and option. */
  lemma AxesDoNotInterfere(o: Options, s: seq<Row>, a: Axis)
    ensures Restrict(Preprocessed(o, s), a) == Preprocessed(o, Restrict(s, a))
  {
    var keep := OfAxis(a);
    var valid := Select(HasAxis(), s);
    SelectCommutes(keep, HasAxis(), s);
    var sorted := SortRows(valid);
    SortCommutes(keep, valid);
    var unique := Deduplicated(o, sorted);
    DropDuplicatesCommutes(keep, sorted);
    var filled := Fill(o.fill, unique);
    FillKeepsAxes(o.fill, unique, a);
    var complete := Complete(o, filled);
    SelectCommutes(keep, NothingMissing(), filled);
    LabelledKeepsAxes(o, complete, a);
    var labelled := Labelled(o, complete);
    SelectCommutes(keep, HasKeys(), labelled);
    SortCommutes(keep, Select(HasKeys(), labelled));
  }

  lemma LabelledKeepsAxes(o: Options, s: seq<Row>, a: Axis)
    ensures Restrict(Labelled(o, s), a) == Labelled(o, Restrict(s, a))
  {
    LabelsKeepAxes(o.labels, ATTACK_LABEL, s, a);
    LabelsKeepAxes(o.labels, RECOVERY_MODE, ApplyLabels(o.labels, ATTACK_LABEL, s), a);
  }

  /* ---- filling in place ---- */

  function Overlay(cells: Cells, under: Cells): (r: Cells)
    ensures forall c :: 0 <= c < COLUMNS ==> r[c] == if cells[c].Some? then cells[c] else under[c]
  {
    seq(COLUMNS, c requires 0 <= c < COLUMNS => if cells[c].Some? then cells[c] else under[c])
  }

  /** fill_numeric with the angle type as group: the columns are overwritten in place, one pass down
      for the forward fill and one up for the backward fill, with a running row of values per axis. */
  method FillNumeric(table: array<Row>, strategy: FillStrategy)
    modifies table
    ensures table[..] == Fill(strategy, old(table[..]))
  {
    if strategy == NoFill {
      return;
    }
    FillDown(table);
    if strategy == FfillBfill {
      FillUp(table);
    }
  }

  /** The running row kept for an axis; nothing present before its first row. */
  function CellsOf(m: map<Option<Axis>, Cells>, a: Option<Axis>): Cells {
    if a in m then m[a] else NoCells()
  }

  function FilledCells(m: map<Option<Axis>, Cells>, r: Row): Cells {
    Overlay(r.cells, CellsOf(m, r.axis))
  }

  ghost predicate TracksLast(m: map<Option<Axis>, Cells>, s: seq<Row>) {
    forall a :: CellsOf(m, a) == LastCells(s, a)
  }

  ghost predicate TracksFirst(m: map<Option<Axis>, Cells>, s: seq<Row>) {
    forall a :: CellsOf(m, a) == FirstCells(s, a)
  }

  lemma LastCellsAppend(s: seq<Row>, r: Row, a: Option<Axis>)
    ensures LastCells(s + [r], a) == if r.axis == a then Overlay(r.cells, LastCells(s, a)) else LastCells(s, a)
  {
    assert (s + [r])[..|s|] == s;
    forall c | 0 <= c < COLUMNS
      ensures LastPresent(s + [r], a, c) == if r.axis == a && r.cells[c].Some? then r.cells[c] else LastPresent(s, a, c)
    {
    }
  }

  lemma FirstCellsPrepend(r: Row, s: seq<Row>, a: Option<Axis>)
    ensures FirstCells([r] + s, a) == if r.axis == a then Overlay(r.cells, FirstCells(s, a)) else FirstCells(s, a)
  {
    assert ([r] + s)[1..] == s;
    forall c | 0 <= c < COLUMNS
      ensures FirstPresent([r] + s, a, c) == if r.axis == a && r.cells[c].Some? then r.cells[c] else FirstPresent(s, a, c)
    {
    }
  }

  /** One step of the pass down: the running row fills the next row and is brought up to date. */
  lemma FillNext(m: map<Option<Axis>, Cells>, s: seq<Row>, r: Row)
    requires TracksLast(m, s)
    ensures TracksLast(m[r.axis := FilledCells(m, r)], s + [r])
    ensures ForwardFill(s + [r]) == ForwardFill(s) + [r.(cells := FilledCells(m, r))]
  {
    var filled := FilledCells(m, r);
    forall a ensures CellsOf(m[r.axis := filled], a) == LastCells(s + [r], a) {
      LastCellsAppend(s, r, a);
    }
    assert CellsOf(m[r.axis := filled], r.axis) == filled;
    assert (s + [r])[..|s|] == s;
  }

  /** One step of the pass up. */
  lemma FillPrevious(m: map<Option<Axis>, Cells>, r: Row, s: seq<Row>)
    requires TracksFirst(m, s)
    ensures TracksFirst(m[r.axis := FilledCells(m, r)], [r] + s)
    ensures BackwardFill([r] + s) == [r.(cells := FilledCells(m, r))] + BackwardFill(s)
  {
    var filled := FilledCells(m, r);
    forall a ensures CellsOf(m[r.axis := filled], a) == FirstCells([r] + s, a) {
      FirstCellsPrepend(r, s, a);
    }
    assert CellsOf(m[r.axis := filled], r.axis) == filled;
    assert ([r] + s)[1..] == s;
  }

  method FillDown(table: array<Row>)
    modifies table
    ensures table[..] == ForwardFill(old(table[..]))
  {
    ghost var was := table[..];
    ghost var head, done: seq<Row> := [], [];
    var last: map<Option<Axis>, Cells> := map[];
    for i := 0 to table.Length
      invariant |head| == |done| == i && TracksLast(last, head) && done == ForwardFill(head)
      invariant forall k :: 0 <= k < i ==> head[k] == was[k] && table[k] == done[k]
      invariant forall k :: i <= k < table.Length ==> table[k] == was[k]
    {
      var r := table[i];
      FillNext(last, head, r);
      var filled := FilledCells(last, r);
      last := last[r.axis := filled];
      table[i] := r.(cells := filled);
      head, done := head + [r], done + [r.(cells := filled)];
    }
    assert head == was && table[..] == done;
  }

  /** `d` is what `s` holds from position i on. */
  ghost predicate Suffix(s: seq<Row>, i: nat, d: seq<Row>) {
    i <= |s| && s[i..] == d
  }

  lemma SuffixGrows(s: seq<Row>, i: nat, x: Row, d: seq<Row>)
    requires Suffix(s, i + 1, d)
    ensures Suffix(s[i := x], i, [x] + d)
  {
  }

  method FillUp(table: array<Row>)
    modifies table
    ensures table[..] == BackwardFill(old(table[..]))
  {
    ghost var was := table[..];
    ghost var tail, done: seq<Row> := [], [];
    var next: map<Option<Axis>, Cells> := map[];
    for i := table.Length downto 0
      invariant TracksFirst(next, tail) && done == BackwardFill(tail)
      invariant Suffix(was, i, tail) && Suffix(table[..], i, done)
      invariant forall k :: 0 <= k < i ==> table[k] == was[k]
    {
      var r := table[i];
      FillPrevious(next, r, tail);
      SuffixGrows(was, i, r, tail);
      assert was[i := r] == was;
      var filled := FilledCells(next, r);
      SuffixGrows(table[..], i, r.(cells := filled), done);
      ghost var before := table[..];
      table[i] := r.(cells := filled);
      assert table[..] == before[i := r.(cells := filled)];
      next := next[r.axis := filled];
      tail, done := [r] + tail, [r.(cells := filled)] + done;
    }
    assert tail == was && table[..] == done;
  }

  /* ---- preprocess_attack ---- */

  /** Row counts of the preprocessing report. */
  datatype Report = Report(input: nat, invalidAxis: nat, duplicates: nat, remainingNan: nat, invalidLabels: nat, keyColumns: nat, output: nat)

  lemma SortKeepsLength(s: seq<Row>)
    ensures |SortRows(s)| == |s|
  {
    SortKeepsRows(s);
    assert |multiset(SortRows(s))| == |SortRows(s)| && |multiset(s)| == |s|;
  }

  /* ---- what comes out ---- */

  /** 1 from 1.0 up, else 0. */
  function ClippedTo01(v: Option<real>): real {
    match v
    case None => 0.0
    case Some(x) => if x < 1.0 then 0.0 else 1.0
  }

  /** The filled row `f` leaves the pipeline as `r`: complete if that is asked for, its two labels kept,
      clipped or required to be 0 or 1, and timestamp, axis, both outputs, residual and selection present. */
  ghost predicate Emits(o: Options, f: Row, r: Row) {
    && (o.dropRemainingNan ==> forall c :: 0 <= c < 26 ==> f.cells[c] != None)
    && (o.labels == DropInvalid ==> (f.cells[24] == Some(0.0) || f.cells[24] == Some(1.0)) && (f.cells[25] == Some(0.0) || f.cells[25] == Some(1.0)))
    && r.axis == f.axis && r.other == f.other
    && (forall c :: 0 <= c < 24 ==> r.cells[c] == f.cells[c])
    && (o.labels != Clip ==> r.cells[24] == f.cells[24] && r.cells[25] == f.cells[25])
    && (o.labels == Clip ==> r.cells[24] == Some(ClippedTo01(f.cells[24])) && r.cells[25] == Some(ClippedTo01(f.cells[25])))
    && HasAllKeys(r)
  }

  predicate HasAllKeys(r: Row) {
    r.axis != None && r.cells[0] != None && r.cells[20] != None && r.cells[21] != None && r.cells[22] != None && r.cells[23] != None
  }

  /** The rows of valid angle types, sorted and, if asked for, deduplicated. */
  function CleanOrder(o: Options, s: seq<Row>): seq<Row> {
    Deduplicated(o, SortRows(Select(HasAxis(), s)))
  }

  lemma CleanOrderMembers(o: Options, s: seq<Row>)
    ensures forall r :: r in CleanOrder(o, s) <==> r in s && r.axis != None
  {
    var valid := Select(HasAxis(), s);
    forall r ensures r in SortRows(valid) <==> r in s && r.axis != None {
      SortMember(valid, r);
      SelectMember(HasAxis(), s, r);
    }
    FirstOccurrencesStay(SortRows(valid));
  }

  lemma SortMember(s: seq<Row>, r: Row)
    ensures r in SortRows(s) <==> r in s
  {
    SortKeepsRows(s);
    assert r in multiset(SortRows(s)) <==> r in multiset(s);
  }

  lemma {:induction false} ClipMember(column: nat, s: seq<Row>, r: Row)
    requires column < COLUMNS
    ensures r in ClipRows(column, s) <==> exists f :: f in s && r == ClipRow(column, f)
  {
    if s != [] {
      var n := |s| - 1;
      ClipMember(column, s[..n], r);
      assert s == s[..n] + [s[n]];
    }
  }

  lemma LabelledMember(o: Options, s: seq<Row>, r: Row)
    ensures r in Labelled(o, s) <==>
            match o.labels
            case Keep => r in s
            case Clip => exists f :: f in s && r == ClipRow(RECOVERY_MODE, ClipRow(ATTACK_LABEL, f))
            case DropInvalid => r in s && IsBinary(r.cells[ATTACK_LABEL]) && IsBinary(r.cells[RECOVERY_MODE])
  {
    match o.labels
    case Keep =>
    case Clip =>
      ClipMember(RECOVERY_MODE, ClipRows(ATTACK_LABEL, s), r);
      forall g ensures g in ClipRows(ATTACK_LABEL, s) <==> exists f :: f in s && g == ClipRow(ATTACK_LABEL, f) {
        ClipMember(ATTACK_LABEL, s, g);
      }
      if f :| f in s && r == ClipRow(RECOVERY_MODE, ClipRow(ATTACK_LABEL, f)) {
        assert ClipRow(ATTACK_LABEL, f) in ClipRows(ATTACK_LABEL, s);
      }
    case DropInvalid =>
      SelectMember(HasBinary(ATTACK_LABEL), s, r);
      SelectMember(HasBinary(RECOVERY_MODE), Select(HasBinary(ATTACK_LABEL), s), r);
  }

  /** The output rows are exactly what the filled rows leave the pipeline as. */
  lemma OutputRowsAre(o: Options, s: seq<Row>, r: Row)
    ensures r in Preprocessed(o, s) <==> exists f :: f in Fill(o.fill, CleanOrder(o, s)) && Emits(o, f, r)
  {
    var filled := Fill(o.fill, CleanOrder(o, s));
    var complete := Complete(o, filled);
    var labelled := Labelled(o, complete);
    SortMember(Select(HasKeys(), labelled), r);
    SelectMember(HasKeys(), labelled, r);
    LabelledMember(o, complete, r);
    forall f ensures f in complete <==> f in filled && (o.dropRemainingNan ==> NothingMissing()(f)) {
      SelectMember(NothingMissing(), filled, f);
    }
    if r in Preprocessed(o, s) {
      var f := EmittedFrom(o, complete, r);
      assert f in filled && Emits(o, f, r);
    }
    if f :| f in filled && Emits(o, f, r) {
      EmittedIsLabelled(o, f, r);
    }
  }

  lemma EmittedFrom(o: Options, complete: seq<Row>, r: Row) returns (f: Row)
    requires r in Labelled(o, complete) && HasKeys()(r)
    requires o.dropRemainingNan ==> forall x :: x in complete ==> NothingMissing()(x)
    ensures f in complete && Emits(o, f, r)
  {
    LabelledMember(o, complete, r);
    if o.labels == Clip {
      f :| f in complete && r == ClipRow(RECOVERY_MODE, ClipRow(ATTACK_LABEL, f));
    } else {
      f := r;
    }
    assert o.dropRemainingNan ==> NothingMissing()(f);
  }

  lemma EmittedIsLabelled(o: Options, f: Row, r: Row)
    requires Emits(o, f, r)
    ensures HasKeys()(r) && (o.dropRemainingNan ==> NothingMissing()(f))
    ensures match o.labels
            case Keep => r == f
            case Clip => r == ClipRow(RECOVERY_MODE, ClipRow(ATTACK_LABEL, f))
            case DropInvalid => r == f && IsBinary(r.cells[ATTACK_LABEL]) && IsBinary(r.cells[RECOVERY_MODE])
  {
    if o.labels == Clip {
      assert r.cells == ClipRow(RECOVERY_MODE, ClipRow(ATTACK_LABEL, f)).cells;
    } else {
      assert r.cells == f.cells;
    }
  }

  /** Both timestamps are present and in order; at equal times roll comes before pitch before yaw. */
  predicate InTimeOrder(a: Row, b: Row) {
    && a.cells[0].Some? && b.cells[0].Some? && a.cells[0].value <= b.cells[0].value
    && (a.cells[0].value == b.cells[0].value ==> a.axis == b.axis || a.axis == Some(Roll) || b.axis == Some(Yaw))
  }

  /** The output is in time order, at equal times roll before pitch before yaw. */
  lemma OutputInTimeOrder(o: Options, s: seq<Row>, i: nat, j: nat)
    requires i < j < |Preprocessed(o, s)|
    ensures var a, b := Preprocessed(o, s)[i], Preprocessed(o, s)[j];
            InTimeOrder(a, b)
  {
    var emitted := Select(HasKeys(), Labelled(o, Complete(o, Fill(o.fill, CleanOrder(o, s)))));
    SortedByClock(emitted, i, j);
    OutputHasKeys(o, s, i);
    OutputHasKeys(o, s, j);
    KeyedInTimeOrder(Preprocessed(o, s)[i], Preprocessed(o, s)[j]);
  }

  lemma OutputHasKeys(o: Options, s: seq<Row>, i: nat)
    requires i < |Preprocessed(o, s)|
    ensures HasAllKeys(Preprocessed(o, s)[i])
  {
    var r := Preprocessed(o, s)[i];
    OutputRowsAre(o, s, r);
    assert r in Preprocessed(o, s);
  }

  lemma KeyedInTimeOrder(a: Row, b: Row)
    requires ClockOrder(a, b) && HasAllKeys(a) && HasAllKeys(b)
    ensures InTimeOrder(a, b)
  {
    match b.axis.value
    case Roll =>
    case Pitch =>
    case Yaw =>
  }

  /** The whole function: the table is the pipeline's, and the report accounts for every input row. */
  method PreprocessAttack(rows: seq<Row>, o: Options) returns (out: seq<Row>, report: Report)
    ensures out == Preprocessed(o, rows)
    ensures var unique := CleanOrder(o, rows);
            var complete := Complete(o, Fill(o.fill, unique));
            var labelled := Labelled(o, complete);
            && report.input == |rows| && report.output == |out|
            && report.invalidAxis + |Select(HasAxis(), rows)| == |rows|
            && report.duplicates + |unique| == |Select(HasAxis(), rows)|
            && report.remainingNan + |complete| == |unique|
            && report.invalidLabels + |labelled| == |complete|
            && report.keyColumns + |out| == |labelled|
    ensures forall i, j :: 0 <= i < j < |out| ==> InTimeOrder(out[i], out[j])
    ensures report.input == report.invalidAxis + report.duplicates + report.remainingNan + report.invalidLabels + report.keyColumns + report.output
  {
    var df := Select(HasAxis(), rows);
    var invalidAxis := |rows| - |df|;
    SortKeepsLength(df);
    df := SortRows(df);
    var before := |df|;
    df := Deduplicated(o, df);
    var duplicates := before - |df|;
    var table := new Row[|df|](i requires 0 <= i < |df| => df[i]);
    assert table[..] == df;
    FillNumeric(table, o.fill);
    df := table[..];
    before := |df|;
    df := Complete(o, df);
    var remainingNan := before - |df|;
    before := |df|;
    df := ApplyLabels(o.labels, ATTACK_LABEL, df);
    df := ApplyLabels(o.labels, RECOVERY_MODE, df);
    var invalidLabels := before - |df|;
    before := |df|;
    df := Select(HasKeys(), df);
    var keyColumns := before - |df|;
    SortKeepsLength(df);
    df := SortRows(df);
    out := df;
    forall i, j | 0 <= i < j < |out| ensures InTimeOrder(out[i], out[j]) {
      OutputInTimeOrder(o, rows, i, j);
    }
    report := Report(|rows|, invalidAxis, duplicates, remainingNan, invalidLabels, keyColumns, |out|);
  }
}
