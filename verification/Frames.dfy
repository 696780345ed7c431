/** The training table: rows, their mission/pair groups, and the library's grouping and sorting. */
module Frames {
  import opened Optional

  /** A row of one axis. `id` is the row's label in the prepared table, `time` the column windows are
      sorted by, `features` the gate columns. */
  datatype Row = Row(id: nat, mission: Option<string>, pair: Option<string>, time: real, features: seq<real>,
                     alpha: real, target: real, yPid: real, yMl: real)

  /** Which optional columns the table has. */
  datatype Columns = Columns(mission: bool, pair: bool, continuousTarget: bool)

  datatype Frame = Frame(cols: Columns, rows: seq<Row>)

  datatype Key = Key(mission: string, pair: string)

  /** The group key of a row; a row with a missing key belongs to no group. */
  function KeyOf(c: Columns, r: Row): Option<Key> {
    if (c.mission && r.mission.None?) || (c.pair && r.pair.None?) then None
    else Some(Key(if c.mission then r.mission.value else "single", if c.pair then r.pair.value else ""))
  }

  /** Two rows share a group exactly when they agree on every grouping column the table has, none missing. */
  lemma SameGroupExactlyWhen(c: Columns, a: Row, b: Row)
    ensures KeyOf(c, a) == KeyOf(c, b) && KeyOf(c, a) != None <==>
            (c.mission ==> a.mission != None && a.mission == b.mission) && (c.pair ==> a.pair != None && a.pair == b.pair)
  {
  }

  /** The rows of one group, in table order. */
  function GroupRows(c: Columns, rows: seq<Row>, k: Key): seq<Row> {
    if rows == [] then []
    else
      var n := |rows| - 1;
      GroupRows(c, rows[..n], k) + (if KeyOf(c, rows[n]) == Some(k) then [rows[n]] else [])
  }

  /** The groups in order of first appearance. */
  function Keys(c: Columns, rows: seq<Row>): seq<Key> {
    if rows == [] then []
    else
      var n := |rows| - 1;
      var ks := Keys(c, rows[..n]);
      match KeyOf(c, rows[n])
      case Some(k) => if k in ks then ks else ks + [k]
      case None => ks
  }

  ghost predicate Distinct<T>(s: seq<T>) {
    forall i, j :: 0 <= i < j < |s| ==> s[i] != s[j]
  }

  ghost predicate DistinctIds(rows: seq<Row>) {
    forall i, j :: 0 <= i < j < |rows| ==> rows[i].id != rows[j].id
  }

  ghost predicate InTimeOrder(rows: seq<Row>) {
    forall i, j :: 0 <= i < j < |rows| ==> rows[i].time <= rows[j].time
  }

  /** What is known of the library's sort on the time column: an ordered permutation. Ties come out in
      some order that depends on the input. */
  ghost predicate IsSort(sort: seq<Row> -> seq<Row>) {
    forall s {:trigger sort(s)} :: multiset(sort(s)) == multiset(s) && InTimeOrder(sort(s))
  }

  lemma SortKeepsLength(sort: seq<Row> -> seq<Row>, s: seq<Row>)
    requires IsSort(sort)
    ensures |sort(s)| == |s|
    ensures forall r :: r in sort(s) <==> r in s
  {
    assert |multiset(sort(s))| == |sort(s)| && |multiset(s)| == |s|;
    forall r ensures r in sort(s) <==> r in s {
      assert r in multiset(sort(s)) <==> r in multiset(s);
    }
  }

  lemma {:induction false} GroupRowsBelong(c: Columns, rows: seq<Row>, k: Key)
    ensures forall r :: r in GroupRows(c, rows, k) <==> r in rows && KeyOf(c, r) == Some(k)
  {
    if rows != [] {
      var n := |rows| - 1;
      GroupRowsBelong(c, rows[..n], k);
      assert rows == rows[..n] + [rows[n]];
    }
  }

  lemma {:induction false} KeysComplete(c: Columns, rows: seq<Row>)
    ensures Distinct(Keys(c, rows))
    ensures forall k :: k in Keys(c, rows) <==> GroupRows(c, rows, k) != []
  {
    if rows != [] {
      KeysComplete(c, rows[..|rows| - 1]);
    }
  }

  /** Groups come in the order of their first rows. */
  lemma {:induction false} KeysByFirstRow(c: Columns, rows: seq<Row>, i: nat, j: nat) returns (a: nat)
    requires i < j < |Keys(c, rows)|
    ensures a < |rows| && KeyOf(c, rows[a]) == Some(Keys(c, rows)[i])
    ensures forall b :: 0 <= b <= a ==> KeyOf(c, rows[b]) != Some(Keys(c, rows)[j])
  {
    var n := |rows| - 1;
    var p := rows[..n];
    var k := Keys(c, rows)[j];
    if j < |Keys(c, p)| {
      a := KeysByFirstRow(c, p, i, j);
    } else {
      a := RowBeforeNewKey(c, p, Keys(c, p)[i], k);
    }
    assert p[a] == rows[a];
    forall b | 0 <= b <= a ensures KeyOf(c, rows[b]) != Some(k) {
      assert p[b] == rows[b];
    }
  }

  lemma RowBeforeNewKey(c: Columns, rows: seq<Row>, known: Key, k: Key) returns (a: nat)
    requires known in Keys(c, rows) && k !in Keys(c, rows)
    ensures a < |rows| && KeyOf(c, rows[a]) == Some(known)
    ensures forall b :: 0 <= b <= a ==> KeyOf(c, rows[b]) != Some(k)
  {
    a := RowOfKey(c, rows, known);
    UnlistedKeyAbsent(c, rows, k);
  }

  lemma {:induction false} RowOfKey(c: Columns, rows: seq<Row>, k: Key) returns (a: nat)
    requires k in Keys(c, rows)
    ensures a < |rows| && KeyOf(c, rows[a]) == Some(k)
  {
    var n := |rows| - 1;
    if k in Keys(c, rows[..n]) {
      a := RowOfKey(c, rows[..n], k);
    } else {
      a := n;
    }
  }

  lemma {:induction false} UnlistedKeyAbsent(c: Columns, rows: seq<Row>, k: Key)
    requires k !in Keys(c, rows)
    ensures forall b :: 0 <= b < |rows| ==> KeyOf(c, rows[b]) != Some(k)
  {
    if rows != [] {
      var n := |rows| - 1;
      UnlistedKeyAbsent(c, rows[..n], k);
      forall b | 0 <= b < n ensures KeyOf(c, rows[b]) != Some(k) {
        assert rows[..n][b] == rows[b];
      }
    }
  }

  lemma {:induction false} GroupRowsConcat(c: Columns, a: seq<Row>, b: seq<Row>, k: Key)
    ensures GroupRows(c, a + b, k) == GroupRows(c, a, k) + GroupRows(c, b, k)
  {
    if b == [] {
      assert a + b == a;
    } else {
      var n := |b| - 1;
      var s := a + b;
      GroupRowsConcat(c, a, b[..n], k);
      assert s[..|s| - 1] == a + b[..n] && s[|s| - 1] == b[n];
      var last := if KeyOf(c, b[n]) == Some(k) then [b[n]] else [];
      assert GroupRows(c, s, k) == GroupRows(c, a + b[..n], k) + last;
      assert GroupRows(c, b, k) == GroupRows(c, b[..n], k) + last;
    }
  }

  /** Grouping keeps the table order, so it keeps labels distinct. */
  lemma {:induction false} GroupKeepsDistinctIds(c: Columns, rows: seq<Row>, k: Key)
    requires DistinctIds(rows)
    ensures DistinctIds(GroupRows(c, rows, k))
  {
    if rows != [] {
      var n := |rows| - 1;
      var before := GroupRows(c, rows[..n], k);
      GroupKeepsDistinctIds(c, rows[..n], k);
      GroupRowsBelong(c, rows[..n], k);
      forall i | 0 <= i < |before| ensures before[i].id != rows[n].id {
        assert before[i] in before;
        var j :| 0 <= j < n && rows[..n][j] == before[i];
        assert rows[j] == before[i];
      }
    }
  }
}
