/** How the table of one axis is prepared: masks, the sort on several columns, relabelling. */
module Preparation {
  import opened Optional
  import opened Axes
  import opened Frames
  import opened Selection

  const MIN_AXIS_ROWS := 200

  /** A row of the attack table, before one axis is taken out of it. */
  datatype TableRow = TableRow(axis: Axis, row: Row)

  /** Axis names sort alphabetically. */
  function AxisRank(a: Axis): nat {
    match a
    case Pitch => 0
    case Roll => 1
    case Yaw => 2
  }

  /** The order of the sort: axis, then mission and pair where the table has them, then time.
      `before` is the library's order of the names, missing ones included. */
  predicate SortOrder(before: (Option<string>, Option<string>) -> bool, c: Columns, a: TableRow, b: TableRow) {
    if a.axis != b.axis then AxisRank(a.axis) < AxisRank(b.axis)
    else if c.mission && a.row.mission != b.row.mission then before(a.row.mission, b.row.mission)
    else if c.pair && a.row.pair != b.row.pair then before(a.row.pair, b.row.pair)
    else a.row.time <= b.row.time
  }

  /** What preparing the table depends on: the columns present, the name order and the sort, the masks
      before the sort (`usable`), after it (`complete`), of the rows of an axis that have a target
      (`hasTarget`) and of its stable and reachable rows (`kept`), and the two steps that rewrite
      value columns (`rescale` the units, `addLabel` the alpha label). */
  datatype Recipe = Recipe(
    cols: Columns, before: (Option<string>, Option<string>) -> bool, sort: seq<TableRow> -> seq<TableRow>,
    usable: TableRow -> bool, rescale: TableRow -> TableRow, complete: TableRow -> bool,
    hasTarget: TableRow -> bool, addLabel: Row -> Row, kept: Row -> bool)

  /** Same row label, group and time. */
  predicate SamePlace(a: Row, b: Row) {
    a.id == b.id && a.mission == b.mission && a.pair == b.pair && a.time == b.time
  }

  /** The sort returns an ordered permutation, and rewriting values leaves rows in their place. */
  ghost predicate IsRecipe(p: Recipe) {
    && (forall s {:trigger p.sort(s)} ::
          multiset(p.sort(s)) == multiset(s)
          && forall i, j :: 0 <= i < j < |p.sort(s)| ==> SortOrder(p.before, p.cols, p.sort(s)[i], p.sort(s)[j]))
    && (forall r {:trigger p.rescale(r)} :: p.rescale(r).axis == r.axis && SamePlace(p.rescale(r).row, r.row))
    && (forall r {:trigger p.addLabel(r)} :: SamePlace(p.addLabel(r), r))
  }

  function ResetIndex(s: seq<TableRow>): (r: seq<TableRow>)
    ensures |r| == |s| && forall i :: 0 <= i < |s| ==> r[i] == s[i].(row := s[i].row.(id := i))
  {
    seq(|s|, i requires 0 <= i < |s| => s[i].(row := s[i].row.(id := i)))
  }

  function MapAll<T, U>(f: T -> U, s: seq<T>): (r: seq<U>)
    ensures |r| == |s| && forall i :: 0 <= i < |s| ==> r[i] == f(s[i])
  {
    seq(|s|, i requires 0 <= i < |s| => f(s[i]))
  }

  function RowPart(): TableRow -> Row { (r: TableRow) => r.row }

  function OnAxis(axis: Axis): TableRow -> bool { (r: TableRow) => r.axis == axis }

  /** read_and_prepare: the attack table of all axes. */
  function ReadAndPrepare(p: Recipe, raw: seq<TableRow>): seq<TableRow> {
    Select(p.complete, MapAll(p.rescale, ResetIndex(p.sort(Select(p.usable, raw)))))
  }

  /** The rows of one axis that have a target. */
  function AxisRows(p: Recipe, raw: seq<TableRow>, axis: Axis): seq<TableRow> {
    Select(p.hasTarget, Select(OnAxis(axis), ReadAndPrepare(p, raw)))
  }

  /** The table train_for_angle splits, or None where it refuses for too few rows. */
  function AxisTable(p: Recipe, raw: seq<TableRow>, axis: Axis): Option<Frame> {
    var rows := AxisRows(p, raw, axis);
    var usable := Select(p.kept, MapAll(p.addLabel, MapAll(RowPart(), rows)));
    if |rows| < MIN_AXIS_ROWS || |usable| < MIN_AXIS_ROWS then None else Some(Frame(p.cols, usable))
  }

  /* ---- what preparation guarantees ---- */

  /** `a` may come before `b` in the table of one axis. */
  predicate InPlace(c: Columns, a: Row, b: Row) {
    a.id < b.id && (KeyOf(c, a) == KeyOf(c, b) && KeyOf(c, a).Some? ==> a.time <= b.time)
  }

  function RowOrder(c: Columns): (Row, Row) -> bool {
    (a: Row, b: Row) => InPlace(c, a, b)
  }

  function TableOrder(c: Columns): (TableRow, TableRow) -> bool {
    (a: TableRow, b: TableRow) => a.row.id < b.row.id && (a.axis == b.axis ==> InPlace(c, a.row, b.row))
  }

  /** The sort puts the rows of one group of one axis in time order; later masks keep that. */
  lemma PreparedInOrder(p: Recipe, raw: seq<TableRow>)
    requires IsRecipe(p)
    ensures Pairwise(TableOrder(p.cols), ReadAndPrepare(p, raw))
  {
    var sorted := p.sort(Select(p.usable, raw));
    var indexed := ResetIndex(sorted);
    var rescaled := MapAll(p.rescale, indexed);
    forall i, j | 0 <= i < j < |rescaled| ensures TableOrder(p.cols)(rescaled[i], rescaled[j]) {
      assert SortOrder(p.before, p.cols, sorted[i], sorted[j]);
      assert SamePlace(p.rescale(indexed[i]).row, indexed[i].row) && SamePlace(p.rescale(indexed[j]).row, indexed[j].row);
    }
    SelectKeepsPairwise(TableOrder(p.cols), p.complete, rescaled);
  }

  /** `a` may come before `b` in the table of all axes: pitch, roll, yaw, then mission, then pair where the
      table has them, then time. */
  predicate Lexicographic(before: (Option<string>, Option<string>) -> bool, c: Columns, a: TableRow, b: TableRow) {
    && (a.axis == b.axis || a.axis == Pitch || b.axis == Yaw)
    && (a.axis == b.axis && c.mission && a.row.mission != b.row.mission ==> before(a.row.mission, b.row.mission))
    && (a.axis == b.axis && (c.mission ==> a.row.mission == b.row.mission) && c.pair && a.row.pair != b.row.pair ==>
          before(a.row.pair, b.row.pair))
  }

  /** The prepared table is ordered by axis, mission and pair. */
  lemma PreparedLexicographic(p: Recipe, raw: seq<TableRow>, i: nat, j: nat)
    requires IsRecipe(p) && i < j < |ReadAndPrepare(p, raw)|
    ensures Lexicographic(p.before, p.cols, ReadAndPrepare(p, raw)[i], ReadAndPrepare(p, raw)[j])
  {
    var rel := (a: TableRow, b: TableRow) => Lexicographic(p.before, p.cols, a, b);
    var sorted := p.sort(Select(p.usable, raw));
    var indexed := ResetIndex(sorted);
    var rescaled := MapAll(p.rescale, indexed);
    forall i, j | 0 <= i < j < |rescaled| ensures rel(rescaled[i], rescaled[j]) {
      assert SortOrder(p.before, p.cols, sorted[i], sorted[j]);
      assert SamePlace(p.rescale(indexed[i]).row, indexed[i].row) && SamePlace(p.rescale(indexed[j]).row, indexed[j].row);
    }
    SelectKeepsPairwise(rel, p.complete, rescaled);
    assert rel(ReadAndPrepare(p, raw)[i], ReadAndPrepare(p, raw)[j]);
  }

  lemma AxisRowsInOrder(p: Recipe, raw: seq<TableRow>, axis: Axis)
    requires IsRecipe(p)
    ensures Pairwise(TableOrder(p.cols), AxisRows(p, raw, axis))
    ensures forall r :: r in AxisRows(p, raw, axis) ==> r.axis == axis
  {
    var onAxis := OnAxis(axis);
    PreparedInOrder(p, raw);
    SelectKeepsPairwise(TableOrder(p.cols), onAxis, ReadAndPrepare(p, raw));
    SelectMembers(onAxis, ReadAndPrepare(p, raw));
    SelectKeepsPairwise(TableOrder(p.cols), p.hasTarget, Select(onAxis, ReadAndPrepare(p, raw)));
    SelectMembers(p.hasTarget, Select(onAxis, ReadAndPrepare(p, raw)));
  }

  /** The rows of one axis, with their labels, stay in their place. */
  lemma LabelledInOrder(c: Columns, addLabel: Row -> Row, rows: seq<TableRow>, axis: Axis)
    requires Pairwise(TableOrder(c), rows) && forall r :: r in rows ==> r.axis == axis
    requires forall r {:trigger addLabel(r)} :: SamePlace(addLabel(r), r)
    ensures Pairwise(RowOrder(c), MapAll(addLabel, MapAll(RowPart(), rows)))
  {
    forall i, j | 0 <= i < j < |rows| ensures InPlace(c, addLabel(rows[i].row), addLabel(rows[j].row)) {
      assert rows[i] in rows && rows[j] in rows;
      assert TableOrder(c)(rows[i], rows[j]);
    }
  }

  lemma AxisInOrder(p: Recipe, raw: seq<TableRow>, axis: Axis)
    requires IsRecipe(p) && AxisTable(p, raw, axis).Some?
    ensures Pairwise(RowOrder(p.cols), AxisTable(p, raw, axis).value.rows)
  {
    var rows := AxisRows(p, raw, axis);
    AxisRowsInOrder(p, raw, axis);
    LabelledInOrder(p.cols, p.addLabel, rows, axis);
    SelectKeepsPairwise(RowOrder(p.cols), p.kept, MapAll(p.addLabel, MapAll(RowPart(), rows)));
  }

  lemma {:induction false} OrderedGroup(c: Columns, rows: seq<Row>, k: Key)
    requires Pairwise(RowOrder(c), rows)
    ensures InTimeOrder(GroupRows(c, rows, k))
  {
    if rows != [] {
      var n := |rows| - 1;
      var before := GroupRows(c, rows[..n], k);
      OrderedGroup(c, rows[..n], k);
      GroupRowsBelong(c, rows[..n], k);
      forall i | 0 <= i < |before| && KeyOf(c, rows[n]) == Some(k) ensures before[i].time <= rows[n].time {
        assert before[i] in before;
        var j :| 0 <= j < n && rows[..n][j] == before[i];
        assert RowOrder(c)(rows[j], rows[n]);
      }
    }
  }

  ghost predicate GroupsInTimeOrder(f: Frame) {
    forall k :: InTimeOrder(GroupRows(f.cols, f.rows, k))
  }

  /** Whatever the raw table, the table of an axis that reaches the split has distinct row labels and
      every mission/pair group in time order. */
  lemma AxisTableInTimeOrder(p: Recipe, raw: seq<TableRow>, axis: Axis)
    requires IsRecipe(p) && AxisTable(p, raw, axis).Some?
    ensures DistinctIds(AxisTable(p, raw, axis).value.rows)
    ensures GroupsInTimeOrder(AxisTable(p, raw, axis).value)
  {
    var f := AxisTable(p, raw, axis).value;
    AxisInOrder(p, raw, axis);
    forall i, j | 0 <= i < j < |f.rows| ensures f.rows[i].id != f.rows[j].id {
      assert RowOrder(p.cols)(f.rows[i], f.rows[j]);
    }
    forall k ensures InTimeOrder(GroupRows(f.cols, f.rows, k)) {
      OrderedGroup(f.cols, f.rows, k);
    }
  }

  /* ---- which rows reach the split ---- */

  /** A raw row after the index reset and the unit conversion. */
  function Placed(p: Recipe, r: TableRow, id: nat): TableRow {
    p.rescale(r.(row := r.row.(id := id)))
  }

  /** The masks after the sort let the row through. */
  predicate Passes(p: Recipe, axis: Axis, t: TableRow) {
    p.complete(t) && t.axis == axis && p.hasTarget(t) && p.kept(p.addLabel(t.row))
  }

  lemma PreparedRowIsRaw(p: Recipe, raw: seq<TableRow>, t: TableRow) returns (r: TableRow, id: nat)
    requires IsRecipe(p) && t in ReadAndPrepare(p, raw)
    ensures r in raw && p.usable(r) && t == Placed(p, r, id) && p.complete(t)
  {
    var sorted := p.sort(Select(p.usable, raw));
    var rescaled := MapAll(p.rescale, ResetIndex(sorted));
    SelectMembers(p.complete, rescaled);
    SelectMembers(p.usable, raw);
    var i :| 0 <= i < |rescaled| && rescaled[i] == t;
    r, id := sorted[i], i;
    assert r in multiset(sorted);
  }

  lemma UsableRowIsPrepared(p: Recipe, raw: seq<TableRow>, r: TableRow) returns (id: nat)
    requires IsRecipe(p) && r in raw && p.usable(r)
    ensures p.complete(Placed(p, r, id)) ==> Placed(p, r, id) in ReadAndPrepare(p, raw)
  {
    var usable := Select(p.usable, raw);
    var sorted := p.sort(usable);
    var rescaled := MapAll(p.rescale, ResetIndex(sorted));
    SelectMembers(p.usable, raw);
    SelectMembers(p.complete, rescaled);
    assert r in multiset(usable) && multiset(sorted) == multiset(usable);
    var i :| 0 <= i < |sorted| && sorted[i] == r;
    id := i;
    assert rescaled[i] == Placed(p, r, i);
  }

  lemma MembersOfMap<T(!new), U(!new)>(f: T -> U, s: seq<T>)
    ensures forall x :: x in s ==> f(x) in MapAll(f, s)
    ensures forall y :: y in MapAll(f, s) ==> exists x :: x in s && f(x) == y
  {
    forall x | x in s ensures f(x) in MapAll(f, s) {
      var i :| 0 <= i < |s| && s[i] == x;
      assert MapAll(f, s)[i] == f(x);
    }
    forall y | y in MapAll(f, s) ensures exists x :: x in s && f(x) == y {
      var i :| 0 <= i < |s| && MapAll(f, s)[i] == y;
      assert s[i] in s;
    }
  }

  lemma AxisMembers(p: Recipe, raw: seq<TableRow>, axis: Axis, t: TableRow)
    ensures t in AxisRows(p, raw, axis) <==> t in ReadAndPrepare(p, raw) && t.axis == axis && p.hasTarget(t)
  {
    SelectMembers(OnAxis(axis), ReadAndPrepare(p, raw));
    SelectMembers(p.hasTarget, Select(OnAxis(axis), ReadAndPrepare(p, raw)));
  }

  /** Every row of the axis table is a usable raw row that passed all masks, in its place. */
  lemma TableRowIsRaw(p: Recipe, raw: seq<TableRow>, axis: Axis, x: Row) returns (r: TableRow, id: nat)
    requires IsRecipe(p) && AxisTable(p, raw, axis).Some? && x in AxisTable(p, raw, axis).value.rows
    ensures r in raw && p.usable(r) && Passes(p, axis, Placed(p, r, id)) && x == p.addLabel(Placed(p, r, id).row)
  {
    var rows := AxisRows(p, raw, axis);
    SelectMembers(p.kept, MapAll(p.addLabel, MapAll(RowPart(), rows)));
    MembersOfMap(p.addLabel, MapAll(RowPart(), rows));
    MembersOfMap(RowPart(), rows);
    var y :| y in MapAll(RowPart(), rows) && p.addLabel(y) == x;
    var t :| t in rows && RowPart()(t) == y;
    AxisMembers(p, raw, axis, t);
    r, id := PreparedRowIsRaw(p, raw, t);
  }

  /** And every usable raw row that passes them is in it. */
  lemma PassingRowIsKept(p: Recipe, raw: seq<TableRow>, axis: Axis, r: TableRow) returns (id: nat)
    requires IsRecipe(p) && AxisTable(p, raw, axis).Some? && r in raw && p.usable(r)
    ensures Passes(p, axis, Placed(p, r, id)) ==> p.addLabel(Placed(p, r, id).row) in AxisTable(p, raw, axis).value.rows
  {
    id := UsableRowIsPrepared(p, raw, r);
    var t := Placed(p, r, id);
    if Passes(p, axis, t) {
      var rows := AxisRows(p, raw, axis);
      AxisMembers(p, raw, axis, t);
      MembersOfMap(RowPart(), rows);
      assert RowPart()(t) == t.row;
      MembersOfMap(p.addLabel, MapAll(RowPart(), rows));
      SelectMembers(p.kept, MapAll(p.addLabel, MapAll(RowPart(), rows)));
    }
  }

  /** An axis is refused exactly when fewer than 200 rows have a target or fewer than 200 of those pass. */
  lemma AxisRefusedExactlyWhen(p: Recipe, raw: seq<TableRow>, axis: Axis)
    ensures AxisTable(p, raw, axis) == None <==>
            |AxisRows(p, raw, axis)| < 200 || |Select(p.kept, MapAll(p.addLabel, MapAll(RowPart(), AxisRows(p, raw, axis))))| < 200
  {
  }
}
