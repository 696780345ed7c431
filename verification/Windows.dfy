/** Sliding windows over the sorted groups: the simple, materialising form. */
module Windows {
  import opened Frames
  import opened Optional

  type Window = seq<Row>

  /** Each group sorted by time; groups shorter than a window are dropped. */
  function LongGroups(c: Columns, rows: seq<Row>, keys: seq<Key>, length: nat, sort: seq<Row> -> seq<Row>): (gs: seq<seq<Row>>)
    ensures forall g :: g in gs ==> |g| >= length
  {
    if keys == [] then []
    else
      var n := |keys| - 1;
      var g := sort(GroupRows(c, rows, keys[n]));
      var before := LongGroups(c, rows, keys[..n], length, sort);
      if |g| >= length then before + [g] else before
  }

  function Groups(f: Frame, length: nat, sort: seq<Row> -> seq<Row>): seq<seq<Row>> {
    LongGroups(f.cols, f.rows, Keys(f.cols, f.rows), length, sort)
  }

  ghost predicate AllLong(gs: seq<seq<Row>>, length: nat) {
    forall i :: 0 <= i < |gs| ==> |gs[i]| >= length
  }

  /** The stretches of `length` consecutive rows of one group, by start position. */
  function WindowsOf(g: seq<Row>, length: nat): (ws: seq<Window>)
    requires |g| >= length >= 1
    ensures |ws| == |g| - length + 1
    ensures forall s :: 0 <= s < |ws| ==> ws[s] == g[s..s + length]
  {
    seq(|g| - length + 1, s requires 0 <= s < |g| - length + 1 => g[s..s + length])
  }

  function AllWindows(gs: seq<seq<Row>>, length: nat): seq<Window>
    requires AllLong(gs, length) && length >= 1
  {
    if gs == [] then []
    else
      var n := |gs| - 1;
      AllWindows(gs[..n], length) + WindowsOf(gs[n], length)
  }

  function AllEndpoints(gs: seq<seq<Row>>, length: nat): seq<Row>
    requires AllLong(gs, length) && length >= 1
  {
    if gs == [] then []
    else
      var n := |gs| - 1;
      AllEndpoints(gs[..n], length) + gs[n][length - 1..]
  }

  /** Number of windows before group `i`. */
  function Start(gs: seq<seq<Row>>, length: nat, i: nat): nat
    requires AllLong(gs, length) && length >= 1 && i <= |gs|
  {
    |AllWindows(gs[..i], length)|
  }

  lemma {:induction false} StartsGrow(gs: seq<seq<Row>>, length: nat, i: nat)
    requires AllLong(gs, length) && length >= 1 && i < |gs|
    ensures Start(gs, length, i + 1) == Start(gs, length, i) + |gs[i]| - length + 1
  {
    assert gs[..i + 1][..i] == gs[..i];
  }

  lemma {:induction false} StartsOrdered(gs: seq<seq<Row>>, length: nat, i: nat, j: nat)
    requires AllLong(gs, length) && length >= 1 && i <= j <= |gs|
    ensures Start(gs, length, i) + (j - i) <= Start(gs, length, j)
    decreases j
  {
    if i < j {
      StartsOrdered(gs, length, i, j - 1);
      StartsGrow(gs, length, j - 1);
    }
  }

  /** Window `s` of group `i` is window Start(i) + s overall. */
  lemma {:induction false} WindowAt(gs: seq<seq<Row>>, length: nat, i: nat, s: nat)
    requires AllLong(gs, length) && length >= 1 && i < |gs| && s <= |gs[i]| - length
    ensures Start(gs, length, i) + s < |AllWindows(gs, length)|
    ensures AllWindows(gs, length)[Start(gs, length, i) + s] == gs[i][s..s + length]
  {
    var n := |gs| - 1;
    if i < n {
      WindowAt(gs[..n], length, i, s);
      assert gs[..n][..i] == gs[..i];
    }
  }

  /** Each overall window index belongs to exactly one group and start position. */
  lemma {:induction false} OwnerOf(gs: seq<seq<Row>>, length: nat, j: nat) returns (i: nat, s: nat)
    requires AllLong(gs, length) && length >= 1 && j < |AllWindows(gs, length)|
    ensures i < |gs| && s <= |gs[i]| - length && j == Start(gs, length, i) + s
    ensures Start(gs, length, i) <= j < Start(gs, length, i + 1)
  {
    var n := |gs| - 1;
    if j < |AllWindows(gs[..n], length)| {
      i, s := OwnerOf(gs[..n], length, j);
      assert gs[..n][..i] == gs[..i] && gs[..n][..i + 1] == gs[..i + 1];
    } else {
      i, s := n, j - |AllWindows(gs[..n], length)|;
      assert gs[..n + 1] == gs;
    }
  }

  lemma OwnerUnique(gs: seq<seq<Row>>, length: nat, j: nat, a: nat, b: nat)
    requires AllLong(gs, length) && length >= 1 && a < |gs| && b < |gs|
    requires Start(gs, length, a) <= j < Start(gs, length, a + 1)
    requires Start(gs, length, b) <= j < Start(gs, length, b + 1)
    ensures a == b
  {
    if a < b {
      StartsOrdered(gs, length, a + 1, b);
    } else if b < a {
      StartsOrdered(gs, length, b + 1, a);
    }
  }

  /** Row j of the endpoint table is the last row of window j. */
  lemma {:induction false} EndpointOfWindow(gs: seq<seq<Row>>, length: nat)
    requires AllLong(gs, length) && length >= 1
    ensures |AllEndpoints(gs, length)| == |AllWindows(gs, length)|
    ensures forall j :: 0 <= j < |AllWindows(gs, length)| ==>
              |AllWindows(gs, length)[j]| == length && AllEndpoints(gs, length)[j] == AllWindows(gs, length)[j][length - 1]
  {
    if gs != [] {
      EndpointOfWindow(gs[..|gs| - 1], length);
    }
  }

  /** Each long group is the sorted group of one key. */
  lemma {:induction false} LongGroupOfKey(c: Columns, rows: seq<Row>, keys: seq<Key>, length: nat, sort: seq<Row> -> seq<Row>, i: nat) returns (k: Key)
    requires i < |LongGroups(c, rows, keys, length, sort)|
    ensures k in keys && LongGroups(c, rows, keys, length, sort)[i] == sort(GroupRows(c, rows, k))
  {
    var n := |keys| - 1;
    var before := LongGroups(c, rows, keys[..n], length, sort);
    if i < |before| {
      k := LongGroupOfKey(c, rows, keys[..n], length, sort, i);
    } else {
      k := keys[n];
    }
  }

  /** Long groups keep the order of their keys. */
  lemma {:induction false} LongGroupsInKeyOrder(c: Columns, rows: seq<Row>, keys: seq<Key>, length: nat, sort: seq<Row> -> seq<Row>, i: nat, j: nat)
    returns (m: nat, n: nat)
    requires i <= j < |LongGroups(c, rows, keys, length, sort)|
    ensures m < |keys| && n < |keys| && m <= n && (i < j ==> m < n)
    ensures LongGroups(c, rows, keys, length, sort)[i] == sort(GroupRows(c, rows, keys[m]))
    ensures LongGroups(c, rows, keys, length, sort)[j] == sort(GroupRows(c, rows, keys[n]))
  {
    n := |keys| - 1;
    var before := LongGroups(c, rows, keys[..n], length, sort);
    m := n;
    if j < |before| {
      m, n := LongGroupsInKeyOrder(c, rows, keys[..n], length, sort, i, j);
    } else if i < |before| {
      var k;
      m, k := LongGroupsInKeyOrder(c, rows, keys[..n], length, sort, i, i);
    }
  }

  lemma {:induction false} LongGroupIsListed(c: Columns, rows: seq<Row>, keys: seq<Key>, length: nat, sort: seq<Row> -> seq<Row>, n: nat) returns (i: nat)
    requires n < |keys| && |sort(GroupRows(c, rows, keys[n]))| >= length
    ensures i < |LongGroups(c, rows, keys, length, sort)|
    ensures LongGroups(c, rows, keys, length, sort)[i] == sort(GroupRows(c, rows, keys[n]))
  {
    var last := |keys| - 1;
    if n < last {
      assert keys[..last][n] == keys[n];
      i := LongGroupIsListed(c, rows, keys[..last], length, sort, n);
      assert LongGroups(c, rows, keys[..last], length, sort) <= LongGroups(c, rows, keys, length, sort);
    } else {
      i := |LongGroups(c, rows, keys[..last], length, sort)|;
    }
  }

  /** Every stretch of `length` consecutive rows of a sorted group is a window: no group that is long
      enough is left out, and no window of it. */
  lemma EveryStretchIsAWindow(f: Frame, length: nat, sort: seq<Row> -> seq<Row>, k: Key, s: nat) returns (j: nat)
    requires IsSort(sort) && length >= 1 && s + length <= |GroupRows(f.cols, f.rows, k)|
    ensures |sort(GroupRows(f.cols, f.rows, k))| == |GroupRows(f.cols, f.rows, k)|
    ensures j < |AllWindows(Groups(f, length, sort), length)|
    ensures AllWindows(Groups(f, length, sort), length)[j] == sort(GroupRows(f.cols, f.rows, k))[s..s + length]
  {
    var keys := Keys(f.cols, f.rows);
    KeysComplete(f.cols, f.rows);
    SortKeepsLength(sort, GroupRows(f.cols, f.rows, k));
    var n :| 0 <= n < |keys| && keys[n] == k;
    var i := LongGroupIsListed(f.cols, f.rows, keys, length, sort, n);
    j := StretchOfGroup(Groups(f, length, sort), length, i, sort(GroupRows(f.cols, f.rows, k)), s);
  }

  lemma StretchOfGroup(gs: seq<seq<Row>>, length: nat, i: nat, g: seq<Row>, s: nat) returns (j: nat)
    requires AllLong(gs, length) && length >= 1 && i < |gs| && gs[i] == g && s + length <= |g|
    ensures j < |AllWindows(gs, length)| && AllWindows(gs, length)[j] == g[s..s + length]
  {
    WindowAt(gs, length, i, s);
    j := Start(gs, length, i) + s;
  }

  /** No window crosses a mission/pair boundary: its rows are table rows of one group, in time order,
      and no row appears that is not in the table. */
  lemma WindowStaysInGroup(f: Frame, length: nat, sort: seq<Row> -> seq<Row>, j: nat) returns (k: Key)
    requires IsSort(sort) && length >= 1
    requires j < |AllWindows(Groups(f, length, sort), length)|
    ensures k in Keys(f.cols, f.rows)
    ensures StaysInGroup(f, AllWindows(Groups(f, length, sort), length)[j], length, k)
  {
    var i, s := WindowIsStretch(Groups(f, length, sort), length, j);
    k := LongGroupOfKey(f.cols, f.rows, Keys(f.cols, f.rows), length, sort, i);
    StretchOfSortedGroup(f, sort, k, s, length);
  }

  lemma WindowIsStretch(gs: seq<seq<Row>>, length: nat, j: nat) returns (i: nat, s: nat)
    requires AllLong(gs, length) && length >= 1 && j < |AllWindows(gs, length)|
    ensures i < |gs| && s + length <= |gs[i]| && AllWindows(gs, length)[j] == gs[i][s..s + length]
  {
    i, s := OwnerOf(gs, length, j);
    WindowAt(gs, length, i, s);
  }

  /** `length` rows of the table, all of group `k`, in time order. */
  ghost predicate StaysInGroup(f: Frame, w: Window, length: nat, k: Key) {
    && |w| == length && InTimeOrder(w)
    && (forall r :: r in w ==> r in GroupRows(f.cols, f.rows, k))
    && (forall r :: r in w ==> r in f.rows && KeyOf(f.cols, r) == Some(k))
  }

  lemma StretchOfSortedGroup(f: Frame, sort: seq<Row> -> seq<Row>, k: Key, s: nat, length: nat)
    requires IsSort(sort) && s + length <= |sort(GroupRows(f.cols, f.rows, k))|
    ensures StaysInGroup(f, sort(GroupRows(f.cols, f.rows, k))[s..s + length], length, k)
  {
    var g := sort(GroupRows(f.cols, f.rows, k));
    var w := g[s..s + length];
    GroupRowsBelong(f.cols, f.rows, k);
    SortKeepsLength(sort, GroupRows(f.cols, f.rows, k));
    assert InTimeOrder(g);
    forall r | r in w ensures r in g {}
  }

  /* ---- make_lstm_windows ---- */

  datatype WindowError = SequenceTooShort | BatchTooSmall | MissingTargetColumns | UnsupportedLoss | NoWindows

  datatype Result<+T> = Ok(value: T) | Err(error: WindowError)

  datatype WindowTable = WindowTable(windows: seq<seq<seq<real>>>, targets: seq<real>, endpoints: seq<Row>)

  function Features(w: seq<Row>): (x: seq<seq<real>>)
    ensures |x| == |w| && forall i :: 0 <= i < |w| ==> x[i] == w[i].features
  {
    seq(|w|, i requires 0 <= i < |w| => w[i].features)
  }

  function Alphas(g: seq<Row>): (a: seq<real>)
    ensures |a| == |g| && forall i :: 0 <= i < |g| ==> a[i] == g[i].alpha
  {
    seq(|g|, i requires 0 <= i < |g| => g[i].alpha)
  }

  /** sliding_window_view over the feature matrix of one group. */
  function SlidingView(x: seq<seq<real>>, length: nat): (v: seq<seq<seq<real>>>)
    requires |x| >= length >= 1
    ensures |v| == |x| - length + 1
    ensures forall s :: 0 <= s < |v| ==> v[s] == x[s..s + length]
  {
    seq(|x| - length + 1, s requires 0 <= s < |x| - length + 1 => x[s..s + length])
  }

  /** Windows and targets agree row for row. */
  ghost predicate RowsMatch(windows: seq<seq<seq<real>>>, targets: seq<real>, ws: seq<Window>, length: nat)
    requires length >= 1
  {
    && |windows| == |targets| == |ws|
    && forall j :: 0 <= j < |ws| ==> |ws[j]| == length && windows[j] == Features(ws[j]) && targets[j] == ws[j][length - 1].alpha
  }

  /** `t` lists, row for row, the windows of `gs`, their endpoint alphas and their endpoint rows. */
  ghost predicate IsWindowTable(t: WindowTable, gs: seq<seq<Row>>, length: nat)
    requires AllLong(gs, length) && length >= 1
  {
    var ws := AllWindows(gs, length);
    RowsMatch(t.windows, t.targets, ws, length) && t.endpoints == AllEndpoints(gs, length)
  }

  method MakeLstmWindows(f: Frame, length: nat, sort: seq<Row> -> seq<Row>) returns (r: Result<WindowTable>)
    ensures r.Err? <==> length < 2 || Groups(f, length, sort) == []
    ensures length < 2 ==> r == Err(SequenceTooShort)
    ensures length >= 2 && r.Err? ==> r == Err(NoWindows)
    ensures r.Ok? ==> IsWindowTable(r.value, Groups(f, length, sort), length)
  {
    if length < 2 {
      return Err(SequenceTooShort);
    }
    var windows: seq<seq<seq<real>>> := [];
    var targets: seq<real> := [];
    var endpoints: seq<Row> := [];
    var keys := Keys(f.cols, f.rows);
    ghost var gs := [];
    for n := 0 to |keys|
      invariant gs == LongGroups(f.cols, f.rows, keys[..n], length, sort)
      invariant AllLong(gs, length)
      invariant IsWindowTable(WindowTable(windows, targets, endpoints), gs, length)
      invariant gs == [] <==> windows == []
    {
      var group := sort(GroupRows(f.cols, f.rows, keys[n]));
      LongGroupsStep(f.cols, f.rows, keys, length, sort, n);
      var x := Features(group);
      var y := Alphas(group);
      if |group| < length {
        continue;
      }
      TableGrows(WindowTable(windows, targets, endpoints), gs, group, length);
      windows := windows + SlidingView(x, length);
      targets := targets + y[length - 1..];
      endpoints := endpoints + group[length - 1..];
      gs := gs + [group];
    }
    assert keys[..|keys|] == keys;
    if windows == [] {
      return Err(NoWindows);
    }
    return Ok(WindowTable(windows, targets, endpoints));
  }

  lemma LongGroupsStep(c: Columns, rows: seq<Row>, keys: seq<Key>, length: nat, sort: seq<Row> -> seq<Row>, n: nat)
    requires n < |keys|
    ensures var g := sort(GroupRows(c, rows, keys[n]));
            && (|g| >= length ==> LongGroups(c, rows, keys[..n + 1], length, sort) == LongGroups(c, rows, keys[..n], length, sort) + [g])
            && (|g| < length ==> LongGroups(c, rows, keys[..n + 1], length, sort) == LongGroups(c, rows, keys[..n], length, sort))
  {
    assert keys[..n + 1][..n] == keys[..n];
  }

  lemma TableGrows(t: WindowTable, gs: seq<seq<Row>>, group: seq<Row>, length: nat)
    requires AllLong(gs, length) && length >= 1 && |group| >= length
    requires IsWindowTable(t, gs, length)
    ensures AllLong(gs + [group], length)
    ensures IsWindowTable(WindowTable(t.windows + SlidingView(Features(group), length), t.targets + Alphas(group)[length - 1..],
                                      t.endpoints + group[length - 1..]), gs + [group], length)
  {
    var hs := gs + [group];
    assert hs[..|gs|] == gs;
    GroupTable(group, length);
    TableAppend(t, AllWindows(gs, length), WindowsOf(group, length), group, length);
  }

  /** One group's view, labels and endpoints, row for row. */
  lemma GroupTable(group: seq<Row>, length: nat)
    requires |group| >= length >= 1
    ensures var ws := WindowsOf(group, length);
            forall s :: 0 <= s < |ws| ==>
              SlidingView(Features(group), length)[s] == Features(ws[s])
              && Alphas(group)[length - 1..][s] == ws[s][length - 1].alpha
  {
    var ws := WindowsOf(group, length);
    forall s | 0 <= s < |ws|
      ensures SlidingView(Features(group), length)[s] == Features(ws[s])
      ensures Alphas(group)[length - 1..][s] == ws[s][length - 1].alpha
    {
      assert Features(group)[s..s + length] == Features(group[s..s + length]);
    }
  }

  lemma TableAppend(t: WindowTable, before: seq<Window>, ws: seq<Window>, group: seq<Row>, length: nat)
    requires |group| >= length >= 1
    requires RowsMatch(t.windows, t.targets, before, length)
    requires RowsMatch(SlidingView(Features(group), length), Alphas(group)[length - 1..], ws, length)
    ensures RowsMatch(t.windows + SlidingView(Features(group), length), t.targets + Alphas(group)[length - 1..], before + ws, length)
  {
  }
}
