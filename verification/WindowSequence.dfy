/** LstmWindowSequence: batches of windows served without materialising them. */
module WindowSequence {
  import opened Frames
  import opened Optional
  import opened Shuffle
  import opened Windows
  import GateTarget

  datatype GateLoss = AlphaHuber | FusedHuber | OtherLoss

  /** One group's feature matrix and fit targets. */
  datatype Group = Group(x: seq<seq<real>>, yFit: seq<seq<real>>)

  /** The fit target of a row; its first entry is the alpha label under either loss. */
  function FitTarget(loss: GateLoss, r: Row): (y: seq<real>)
    ensures |y| >= 1 && y[0] == r.alpha
  {
    if loss == FusedHuber then [r.alpha, r.target, r.yPid, r.yMl] else [r.alpha]
  }

  /** The alpha label alone, or with the target, the PID and the ML output after it, of table row `e`. */
  ghost predicate TargetOfRow(loss: GateLoss, y: seq<real>, e: Row) {
    if loss == FusedHuber then |y| == 4 && y[0] == e.alpha && y[1] == e.target && y[2] == e.yPid && y[3] == e.yMl
    else y == [e.alpha]
  }

  function GroupOf(loss: GateLoss, g: seq<Row>): (r: Group)
    ensures |r.x| == |r.yFit| == |g|
    ensures forall i :: 0 <= i < |g| ==> r.x[i] == g[i].features && r.yFit[i] == FitTarget(loss, g[i])
  {
    Group(Features(g), seq(|g|, i requires 0 <= i < |g| => FitTarget(loss, g[i])))
  }

  function Iota(n: nat): (s: seq<nat>)
    ensures |s| == n && forall i :: 0 <= i < n ==> s[i] == i
  {
    seq(n, i => i)
  }

  /** What the batches must contain: for each listed window index its features and endpoint target. */
  ghost function Served(gs: seq<seq<Row>>, length: nat, loss: GateLoss, j: nat): (seq<seq<real>>, seq<real>)
    requires AllLong(gs, length) && length >= 1 && j < |AllWindows(gs, length)|
  {
    EndpointOfWindow(gs, length);
    var w := AllWindows(gs, length)[j];
    (Features(w), FitTarget(loss, w[length - 1]))
  }

  /** Position after the last element not above `v`: numpy's searchsorted with side="right". */
  method SearchSortedRight(a: seq<nat>, v: nat) returns (k: nat)
    requires forall i, j :: 0 <= i < j < |a| ==> a[i] < a[j]
    ensures k <= |a|
    ensures forall i :: 0 <= i < k ==> a[i] <= v
    ensures forall i :: k <= i < |a| ==> v < a[i]
  {
    var lo, hi := 0, |a|;
    while lo < hi
      invariant 0 <= lo <= hi <= |a|
      invariant forall i :: 0 <= i < lo ==> a[i] <= v
      invariant forall i :: hi <= i < |a| ==> v < a[i]
    {
      var mid := (lo + hi) / 2;
      if a[mid] <= v {
        lo := mid + 1;
      } else {
        hi := mid;
      }
    }
    k := lo;
  }

  /** Window `j` lies inside the group whose windows begin at `start`. */
  ghost predicate CutFits(group: Group, length: nat, start: nat, j: nat) {
    length >= 1 && start <= j && j - start + length <= |group.x| && |group.x| == |group.yFit|
  }

  /** That window, and the target at its endpoint. */
  ghost function Cut(group: Group, length: nat, start: nat, j: nat): (seq<seq<real>>, seq<real>)
    requires CutFits(group, length, start, j)
  {
    (group.x[j - start..j - start + length], group.yFit[j - start + length - 1])
  }

  /** Fill the slots masked by one group id, each once, and no others. */
  method FillGroup(group: Group, groupStart: nat, length: nat, batch: seq<nat>, ids: seq<nat>, groupId: nat,
                   xBatch: array<seq<seq<real>>>, yBatch: array<seq<real>>, ghost writes: seq<nat>)
    returns (ghost writes': seq<nat>)
    requires |batch| == |ids| == xBatch.Length == yBatch.Length == |writes|
    requires forall p :: 0 <= p < |batch| && ids[p] == groupId ==> CutFits(group, length, groupStart, batch[p])
    modifies xBatch, yBatch
    ensures |writes'| == |writes|
    ensures forall p :: 0 <= p < |batch| ==> writes'[p] == writes[p] + if ids[p] == groupId then 1 else 0
    ensures forall p :: 0 <= p < |batch| ==>
              (xBatch[p], yBatch[p]) == if ids[p] == groupId then Cut(group, length, groupStart, batch[p]) else old((xBatch[p], yBatch[p]))
  {
    writes' := writes;
    for outPos := 0 to |batch|
      invariant |writes'| == |writes|
      invariant forall p :: 0 <= p < |batch| ==> writes'[p] == writes[p] + if ids[p] == groupId && p < outPos then 1 else 0
      invariant forall p :: 0 <= p < |batch| ==>
                  (xBatch[p], yBatch[p]) ==
                  if ids[p] == groupId && p < outPos then Cut(group, length, groupStart, batch[p]) else old((xBatch[p], yBatch[p]))
    {
      if ids[outPos] == groupId {
        var localStart := batch[outPos] - groupStart;
        var endpoint := localStart + length - 1;
        xBatch[outPos] := group.x[localStart..localStart + length];
        yBatch[outPos] := group.yFit[endpoint];
        writes' := writes'[outPos := writes'[outPos] + 1];
      }
    }
  }

  /** Uninitialised batch arrays filled group by group. */
  method FillBatch(groups: seq<Group>, groupStarts: seq<nat>, length: nat, batch: seq<nat>, ids: seq<nat>)
    returns (xBatch: array<seq<seq<real>>>, yBatch: array<seq<real>>, ghost writes: seq<nat>)
    requires |groups| == |groupStarts| && |batch| == |ids|
    requires forall p :: 0 <= p < |batch| ==> ids[p] < |groups| && CutFits(groups[ids[p]], length, groupStarts[ids[p]], batch[p])
    ensures xBatch.Length == yBatch.Length == |writes| == |batch|
    ensures forall p :: 0 <= p < |batch| ==> writes[p] == 1
    ensures forall p :: 0 <= p < |batch| ==> (xBatch[p], yBatch[p]) == Cut(groups[ids[p]], length, groupStarts[ids[p]], batch[p])
  {
    xBatch := new seq<seq<real>>[|batch|];
    yBatch := new seq<real>[|batch|];
    writes := seq(|batch|, _ => 0);
    // the distinct group ids of the batch, in increasing order
    for groupId := 0 to |groups|
      invariant |writes| == |batch|
      invariant forall p :: 0 <= p < |batch| ==> writes[p] == if ids[p] < groupId then 1 else 0
      invariant forall p :: 0 <= p < |batch| && ids[p] < groupId ==>
                  (xBatch[p], yBatch[p]) == Cut(groups[ids[p]], length, groupStarts[ids[p]], batch[p])
    {
      if groupId in ids {
        writes := FillGroup(groups[groupId], groupStarts[groupId], length, batch, ids, groupId, xBatch, yBatch, writes);
      }
    }
  }

  /** The fields the constructor accumulates. */
  datatype WindowIndex = WindowIndex(groups: seq<Group>, counts: seq<nat>, starts: seq<nat>, total: nat, endpoints: seq<Row>)

  const EMPTY_INDEX := WindowIndex([], [], [], 0, [])

  /** One more long group; its first window comes after all windows so far. */
  function AddGroup(ix: WindowIndex, length: nat, loss: GateLoss, group: seq<Row>): WindowIndex
    requires |group| >= length >= 1
  {
    var count := |group| - length + 1;
    WindowIndex(ix.groups + [GroupOf(loss, group)], ix.counts + [count], ix.starts + [ix.total],
                ix.total + count, ix.endpoints + group[length - 1..])
  }

  /** The index describes the windows of `gs`. */
  ghost predicate Indexes(ix: WindowIndex, gs: seq<seq<Row>>, length: nat, loss: GateLoss)
    requires AllLong(gs, length) && length >= 1
  {
    && |ix.groups| == |ix.counts| == |ix.starts| == |gs|
    && (forall g :: 0 <= g < |gs| ==> ix.groups[g] == GroupOf(loss, gs[g]))
    && (forall g :: 0 <= g < |gs| ==> ix.counts[g] == |gs[g]| - length + 1)
    && (forall g :: 0 <= g < |gs| ==> ix.starts[g] == Start(gs, length, g))
    && ix.total == |AllWindows(gs, length)|
    && ix.endpoints == AllEndpoints(gs, length)
  }

  class LstmWindowSequence {
    const sequenceLength: nat
    const batchSize: nat
    const gateLoss: GateLoss
    const shuffle: bool
    const groups: seq<Group>
    const windowCounts: seq<nat>
    const groupStarts: seq<nat>
    const totalWindows: nat
    const endpoints: seq<Row>
    const order: array<nat>
    /** The sorted rows behind `groups`. */
    ghost const rowsOf: seq<seq<Row>>

    ghost predicate Shape() {
      && sequenceLength >= 2 && batchSize >= 1
      && AllLong(rowsOf, sequenceLength) && rowsOf != []
      && Indexes(WindowIndex(groups, windowCounts, groupStarts, totalWindows, endpoints), rowsOf, sequenceLength, gateLoss)
      && order.Length == totalWindows
    }

    /** `order` is always a rearrangement of all window indices, and untouched without shuffling. */
    ghost predicate Valid()
      reads order
    {
      && Shape()
      && multiset(order[..]) == multiset(Iota(totalWindows))
      && (!shuffle ==> order[..] == Iota(totalWindows))
    }

    constructor (sequenceLength: nat, batchSize: nat, gateLoss: GateLoss, shuffle: bool,
                 index: WindowIndex, ghost rowsOf: seq<seq<Row>>)
      requires sequenceLength >= 2 && batchSize >= 1
      requires AllLong(rowsOf, sequenceLength) && rowsOf != []
      requires Indexes(index, rowsOf, sequenceLength, gateLoss)
      ensures Valid() && fresh(order) && this.rowsOf == rowsOf
      ensures this.sequenceLength == sequenceLength && this.batchSize == batchSize
      ensures this.gateLoss == gateLoss && this.shuffle == shuffle
    {
      this.sequenceLength, this.batchSize, this.gateLoss, this.shuffle := sequenceLength, batchSize, gateLoss, shuffle;
      groups, windowCounts, groupStarts := index.groups, index.counts, index.starts;
      totalWindows, endpoints, this.rowsOf := index.total, index.endpoints, rowsOf;
      order := new nat[index.total](i => i);
      new;
      assert order[..] == Iota(totalWindows);
    }

    function Len(): nat
      requires batchSize >= 1
    {
      (totalWindows + batchSize - 1) / batchSize
    }

    /** rng.shuffle works in place by exchanges; `draw` stands for the generator. */
    method OnEpochEnd(draw: nat -> nat)
      requires Valid()
      modifies order
      ensures Valid()
      ensures order[..] == if shuffle then Shuffled(old(order[..]), draw, totalWindows) else old(order[..])
    {
      if shuffle {
        ShuffleKeepsAll(order[..], draw, totalWindows);
        ShuffleInPlace(order, draw);
      }
    }

    /** Each window index is in the epoch's order exactly once. */
    lemma EachWindowOnce(j: nat)
      requires Valid() && j < totalWindows
      ensures multiset(order[..])[j] == 1
      ensures exists p :: 0 <= p < totalWindows && order[p] == j
    {
      IotaCounts(totalWindows, j);
      assert j in multiset(order[..]);
      assert j in order[..];
    }

    lemma OrderInRange()
      requires Valid()
      ensures forall p :: 0 <= p < totalWindows ==> order[p] < totalWindows
    {
      forall p | 0 <= p < totalWindows ensures order[p] < totalWindows {
        assert order[p] in multiset(order[..]);
        assert order[p] in Iota(totalWindows);
      }
    }

    /** The group owning window `j`, by binary search in the group starts: the only group whose
        windows include it. */
    method OwningGroup(j: nat) returns (g: nat)
      requires Shape() && j < totalWindows
      ensures g < |groups|
      ensures groupStarts[g] <= j < groupStarts[g] + windowCounts[g]
      ensures forall h :: 0 <= h < |groups| && groupStarts[h] <= j < groupStarts[h] + windowCounts[h] ==> h == g
    {
      forall i, k | 0 <= i < k < |groupStarts| ensures groupStarts[i] < groupStarts[k] {
        StartsOrdered(rowsOf, sequenceLength, i, k);
      }
      var k := SearchSortedRight(groupStarts, j);
      ghost var i, s := OwnerOf(rowsOf, sequenceLength, j);
      StartsGrow(rowsOf, sequenceLength, i);
      assert groupStarts[i] <= j;
      assert i < k;
      forall m | i < m < |groupStarts| ensures j < groupStarts[m] {
        StartsOrdered(rowsOf, sequenceLength, i + 1, m);
      }
      g := k - 1;
      forall h | 0 <= h < |groups| && groupStarts[h] <= j < groupStarts[h] + windowCounts[h] ensures h == g {
        StartsGrow(rowsOf, sequenceLength, h);
        OwnerUnique(rowsOf, sequenceLength, j, h, g);
      }
    }

    /** Group `g` owns window `j`. */
    ghost predicate Owns(g: nat, j: nat)
      requires Shape()
    {
      g < |groups| && groupStarts[g] <= j < groupStarts[g] + windowCounts[g]
    }

    /** The owning group of each entry of a batch. */
    method GroupIds(batch: seq<nat>) returns (ids: seq<nat>)
      requires Shape() && forall p :: 0 <= p < |batch| ==> batch[p] < totalWindows
      ensures |ids| == |batch| && forall p :: 0 <= p < |batch| ==> Owns(ids[p], batch[p])
    {
      ids := [];
      for p := 0 to |batch|
        invariant |ids| == p && forall q :: 0 <= q < p ==> Owns(ids[q], batch[q])
      {
        var g := OwningGroup(batch[p]);
        ids := ids + [g];
      }
    }

    lemma CutIsServed(g: nat, j: nat)
      requires Shape() && Owns(g, j)
      ensures CutFits(groups[g], sequenceLength, groupStarts[g], j)
      ensures j < totalWindows && Cut(groups[g], sequenceLength, groupStarts[g], j) == Served(rowsOf, sequenceLength, gateLoss, j)
    {
      var s := j - groupStarts[g];
      assert groups[g] == GroupOf(gateLoss, rowsOf[g]) && groupStarts[g] == Start(rowsOf, sequenceLength, g);
      assert s <= |rowsOf[g]| - sequenceLength;
      ServedAt(rowsOf, sequenceLength, gateLoss, g, s);
    }

    /** Window `j` is served with the target of row `j` of the endpoint table. */
    lemma ServedIsEndpoint(j: nat)
      requires Shape() && j < totalWindows
      ensures j < |endpoints| && TargetOfRow(gateLoss, Served(rowsOf, sequenceLength, gateLoss, j).1, endpoints[j])
    {
      EndpointOfWindow(rowsOf, sequenceLength);
    }

    /** Batch `index`: uninitialised arrays filled group by group through masks. Every slot is written
        exactly once, with the window and the endpoint target of its entry in `order`. */
    method GetItem(index: nat) returns (xBatch: array<seq<seq<real>>>, yBatch: array<seq<real>>, ghost writes: seq<nat>)
      requires Valid()
      ensures xBatch.Length == yBatch.Length == |writes| == |BatchIndices(index)|
      ensures forall p :: 0 <= p < |writes| ==> writes[p] == 1
      ensures forall p :: 0 <= p < xBatch.Length ==>
                BatchIndices(index)[p] < totalWindows
                && (xBatch[p], yBatch[p]) == Served(rowsOf, sequenceLength, gateLoss, BatchIndices(index)[p])
      ensures forall p :: 0 <= p < yBatch.Length ==>
                BatchIndices(index)[p] < |endpoints| && TargetOfRow(gateLoss, yBatch[p], endpoints[BatchIndices(index)[p]])
    {
      OrderInRange();
      var batch := BatchIndices(index);
      var n := |batch|;
      var ids := GroupIds(batch);
      forall p | 0 <= p < n
        ensures CutFits(groups[ids[p]], sequenceLength, groupStarts[ids[p]], batch[p])
        ensures Cut(groups[ids[p]], sequenceLength, groupStarts[ids[p]], batch[p]) == Served(rowsOf, sequenceLength, gateLoss, batch[p])
      {
        CutIsServed(ids[p], batch[p]);
      }
      forall p | 0 <= p < n
        ensures batch[p] < |endpoints| && TargetOfRow(gateLoss, Served(rowsOf, sequenceLength, gateLoss, batch[p]).1, endpoints[batch[p]])
      {
        ServedIsEndpoint(batch[p]);
      }
      xBatch, yBatch, writes := FillBatch(groups, groupStarts, sequenceLength, batch, ids);
    }

    /** The slice of `order` served as batch `index`. */
    function BatchIndices(index: nat): (b: seq<nat>)
      reads order
      ensures forall p :: 0 <= p < |b| ==> index * batchSize + p < order.Length && b[p] == order[index * batchSize + p]
    {
      var start := index * batchSize;
      var end := if start + batchSize <= order.Length then start + batchSize else order.Length;
      if start <= end then order[start..end] else []
    }

    /** Number of windows in the first `n` batches. */
    function Handled(n: nat): nat {
      if n * batchSize <= totalWindows then n * batchSize else totalWindows
    }

    /** Batch `index` is the part of `order` that follows the earlier batches. */
    lemma BatchIsNext(index: nat)
      requires Valid() && index < Len()
      ensures Handled(index) <= Handled(index + 1) <= totalWindows
      ensures order[..][..Handled(index + 1)] == order[..][..Handled(index)] + BatchIndices(index)
    {
      NextBatch(totalWindows, batchSize, index);
    }

    /** All batches but the last are full, and the last one is not empty. */
    lemma BatchSizes(index: nat)
      requires Valid() && index < Len()
      ensures 1 <= |BatchIndices(index)| <= batchSize
      ensures index + 1 < Len() ==> |BatchIndices(index)| == batchSize
    {
      NextBatch(totalWindows, batchSize, index);
      if index + 1 < Len() {
        NextBatch(totalWindows, batchSize, index + 1);
      }
    }

    lemma AllHandled()
      requires Valid()
      ensures Handled(0) == 0 && Handled(Len()) == totalWindows
    {
      BatchesCover(totalWindows, batchSize);
    }

    /** All batches of one epoch, in order. */
    method Epoch() returns (xs: seq<seq<seq<real>>>, ys: seq<seq<real>>)
      requires Valid()
      ensures |xs| == |ys| == totalWindows
      ensures forall p :: 0 <= p < totalWindows ==>
                order[p] < totalWindows && (xs[p], ys[p]) == Served(rowsOf, sequenceLength, gateLoss, order[p])
    {
      ghost var entries := order[..];
      xs, ys := [], [];
      AllHandled();
      for index := 0 to Len()
        invariant Handled(index) <= totalWindows
        invariant Serves(rowsOf, sequenceLength, gateLoss, xs, ys, entries[..Handled(index)])
      {
        BatchIsNext(index);
        ghost var batch := BatchIndices(index);
        var x, y, _ := GetItem(index);
        ServesBoth(rowsOf, sequenceLength, gateLoss, xs, ys, entries[..Handled(index)], x[..], y[..], batch);
        xs := xs + x[..];
        ys := ys + y[..];
      }
      assert entries[..totalWindows] == entries;
    }
  }

  /** The rows `xs`, `ys` are the windows listed in `entries`, one by one. */
  ghost predicate Serves(gs: seq<seq<Row>>, length: nat, loss: GateLoss, xs: seq<seq<seq<real>>>, ys: seq<seq<real>>, entries: seq<nat>)
    requires AllLong(gs, length) && length >= 1
  {
    && |xs| == |ys| == |entries|
    && forall p :: 0 <= p < |entries| ==>
         entries[p] < |AllWindows(gs, length)| && (xs[p], ys[p]) == Served(gs, length, loss, entries[p])
  }

  lemma ServesBoth(gs: seq<seq<Row>>, length: nat, loss: GateLoss, xs: seq<seq<seq<real>>>, ys: seq<seq<real>>, entries: seq<nat>,
                   x: seq<seq<seq<real>>>, y: seq<seq<real>>, batch: seq<nat>)
    requires AllLong(gs, length) && length >= 1
    requires Serves(gs, length, loss, xs, ys, entries) && Serves(gs, length, loss, x, y, batch)
    ensures Serves(gs, length, loss, xs + x, ys + y, entries + batch)
  {
    var n := |entries|;
    forall p | 0 <= p < n + |batch|
      ensures var j := (entries + batch)[p];
              j < |AllWindows(gs, length)| && ((xs + x)[p], (ys + y)[p]) == Served(gs, length, loss, j)
    {
      if p < n {
        assert (entries + batch)[p] == entries[p] && (xs + x)[p] == xs[p] && (ys + y)[p] == ys[p];
      } else {
        assert (entries + batch)[p] == batch[p - n] && (xs + x)[p] == x[p - n] && (ys + y)[p] == y[p - n];
      }
    }
  }

  lemma ServedAt(gs: seq<seq<Row>>, length: nat, loss: GateLoss, g: nat, s: nat)
    requires AllLong(gs, length) && length >= 1 && g < |gs| && s <= |gs[g]| - length
    ensures Start(gs, length, g) + s < |AllWindows(gs, length)|
    ensures Served(gs, length, loss, Start(gs, length, g) + s) ==
            (GroupOf(loss, gs[g]).x[s..s + length], GroupOf(loss, gs[g]).yFit[s + length - 1])
  {
    WindowAt(gs, length, g, s);
    assert GroupOf(loss, gs[g]).x[s..s + length] == Features(gs[g][s..s + length]);
  }

  /** What the constructor rejects, in the order it notices. */
  ghost function Rejection(f: Frame, length: nat, batch: nat, loss: GateLoss, sort: seq<Row> -> seq<Row>): Option<WindowError> {
    if length < 2 then Some(SequenceTooShort)
    else if batch < 1 then Some(BatchTooSmall)
    else if Groups(f, length, sort) == [] then Some(NoWindows)
    else LossRefused(f, length, loss, sort)
  }

  /** The refusals, in the order they are noticed. */
  lemma RejectedExactlyWhen(f: Frame, length: nat, batch: nat, loss: GateLoss, sort: seq<Row> -> seq<Row>)
    ensures var r := Rejection(f, length, batch, loss, sort);
            && (r == None <==> length >= 2 && batch >= 1 && Groups(f, length, sort) != []
                               && (loss == AlphaHuber || (loss == FusedHuber && f.cols.continuousTarget)))
            && (r == Some(SequenceTooShort) <==> length < 2)
            && (r == Some(BatchTooSmall) <==> length >= 2 && batch < 1)
            && (r == Some(NoWindows) <==> length >= 2 && batch >= 1 && Groups(f, length, sort) == [])
            && (r == Some(MissingTargetColumns) ==> loss == FusedHuber)
            && (r == Some(UnsupportedLoss) ==> loss == OtherLoss)
  {
  }

  /** The loss is looked at only when there is a group to index. */
  ghost function LossRefused(f: Frame, length: nat, loss: GateLoss, sort: seq<Row> -> seq<Row>): Option<WindowError> {
    if Groups(f, length, sort) == [] then None else LossRefusal(f.cols, loss)
  }

  function LossRefusal(c: Columns, loss: GateLoss): Option<WindowError> {
    match loss
    case FusedHuber => if c.continuousTarget then None else Some(MissingTargetColumns)
    case AlphaHuber => None
    case OtherLoss => Some(UnsupportedLoss)
  }

  /** The constructor of the sequence, with its refusals. */
  method Create(f: Frame, length: nat, batchSize: nat, loss: GateLoss, shuffle: bool, draw: nat -> nat, sort: seq<Row> -> seq<Row>)
    returns (r: Result<LstmWindowSequence>)
    ensures r.Err? <==> Rejection(f, length, batchSize, loss, sort).Some?
    ensures r.Err? ==> Some(r.error) == Rejection(f, length, batchSize, loss, sort)
    ensures r.Ok? ==>
              && r.value.Valid() && fresh(r.value.order)
              && r.value.rowsOf == Groups(f, length, sort)
              && r.value.sequenceLength == length && r.value.batchSize == batchSize
              && r.value.gateLoss == loss && r.value.shuffle == shuffle
  {
    if length < 2 {
      return Err(SequenceTooShort);
    }
    if batchSize < 1 {
      return Err(BatchTooSmall);
    }
    var refused, index := ScanGroups(f, length, loss, sort);
    if refused.Some? {
      return Err(refused.value);
    }
    if index.groups == [] {
      return Err(NoWindows);
    }
    var s := new LstmWindowSequence(length, batchSize, loss, shuffle, index, Groups(f, length, sort));
    s.OnEpochEnd(draw);
    return Ok(s);
  }

  /** The loop over the groups: keeps each long group's arrays and counts its windows. */
  method ScanGroups(f: Frame, length: nat, loss: GateLoss, sort: seq<Row> -> seq<Row>) returns (refused: Option<WindowError>, index: WindowIndex)
    requires length >= 1
    ensures refused == LossRefused(f, length, loss, sort)
    ensures refused == None ==> Indexes(index, Groups(f, length, sort), length, loss)
  {
    index := EMPTY_INDEX;
    var keys := Keys(f.cols, f.rows);
    ghost var trail := IndexTrail(f.cols, f.rows, keys, length, loss, sort);
    for n := 0 to |keys|
      invariant index == trail[n]
      invariant index.groups != [] ==> LossRefusal(f.cols, loss) == None
    {
      var group := sort(GroupRows(f.cols, f.rows, keys[n]));
      if |group| >= length {
        refused := LossRefusal(f.cols, loss);
        if refused.Some? {
          LongGroupKept(f.cols, f.rows, keys, length, sort, n);
          return;
        }
        index := AddGroup(index, length, loss, group);
      }
    }
    IndexOfIndexes(Groups(f, length, sort), length, loss);
    refused := None;
  }

  /** The index after each group: a short one changes nothing, a long one is added. */
  lemma IndexTrail(c: Columns, rows: seq<Row>, keys: seq<Key>, length: nat, loss: GateLoss, sort: seq<Row> -> seq<Row>)
    returns (trail: seq<WindowIndex>)
    requires length >= 1
    ensures |trail| == |keys| + 1 && trail[0] == EMPTY_INDEX
    ensures trail[|keys|] == ScannedIndex(c, rows, keys, length, loss, sort)
    ensures forall n :: 0 <= n < |keys| ==>
              var group := sort(GroupRows(c, rows, keys[n]));
              trail[n + 1] == if |group| >= length then AddGroup(trail[n], length, loss, group) else trail[n]
  {
    trail := seq(|keys| + 1, n requires 0 <= n <= |keys| => ScannedIndex(c, rows, keys[..n], length, loss, sort));
    forall n | 0 <= n < |keys|
      ensures var group := sort(GroupRows(c, rows, keys[n]));
              trail[n + 1] == if |group| >= length then AddGroup(trail[n], length, loss, group) else trail[n]
    {
      ScanStep(c, rows, keys, length, loss, sort, n);
    }
    assert keys[..|keys|] == keys;
  }

  /** The index after the groups of `keys`. */
  ghost function ScannedIndex(c: Columns, rows: seq<Row>, keys: seq<Key>, length: nat, loss: GateLoss, sort: seq<Row> -> seq<Row>): WindowIndex
    requires length >= 1
  {
    IndexOf(LongGroups(c, rows, keys, length, sort), length, loss)
  }

  /** A short group changes nothing, a long one is added. */
  lemma ScanStep(c: Columns, rows: seq<Row>, keys: seq<Key>, length: nat, loss: GateLoss, sort: seq<Row> -> seq<Row>, n: nat)
    requires length >= 1 && n < |keys|
    ensures var group := sort(GroupRows(c, rows, keys[n]));
            var before := ScannedIndex(c, rows, keys[..n], length, loss, sort);
            var after := ScannedIndex(c, rows, keys[..n + 1], length, loss, sort);
            && (|group| >= length ==> after == AddGroup(before, length, loss, group))
            && (|group| < length ==> after == before)
  {
    var group := sort(GroupRows(c, rows, keys[n]));
    LongGroupsStep(c, rows, keys, length, sort, n);
    if |group| >= length {
      IndexOfAppend(LongGroups(c, rows, keys[..n], length, sort), group, length, loss);
    }
  }

  /** The index after all the groups `gs`. */
  function IndexOf(gs: seq<seq<Row>>, length: nat, loss: GateLoss): WindowIndex
    requires length >= 1 && AllLong(gs, length)
  {
    if gs == [] then EMPTY_INDEX
    else AddGroup(IndexOf(gs[..|gs| - 1], length, loss), length, loss, gs[|gs| - 1])
  }

  lemma IndexOfAppend(gs: seq<seq<Row>>, group: seq<Row>, length: nat, loss: GateLoss)
    requires length >= 1 && AllLong(gs, length) && |group| >= length
    ensures AllLong(gs + [group], length)
    ensures IndexOf(gs + [group], length, loss) == AddGroup(IndexOf(gs, length, loss), length, loss, group)
  {
    assert (gs + [group])[..|gs|] == gs;
  }

  lemma {:induction false} IndexOfIndexes(gs: seq<seq<Row>>, length: nat, loss: GateLoss)
    requires length >= 1 && AllLong(gs, length)
    ensures Indexes(IndexOf(gs, length, loss), gs, length, loss)
  {
    if gs != [] {
      var n := |gs| - 1;
      IndexOfIndexes(gs[..n], length, loss);
      assert gs == gs[..n] + [gs[n]];
      IndexGrows(IndexOf(gs[..n], length, loss), gs[..n], length, loss, gs[n]);
    }
  }

  lemma IndexGrows(ix: WindowIndex, gs: seq<seq<Row>>, length: nat, loss: GateLoss, group: seq<Row>)
    requires AllLong(gs, length) && length >= 1 && |group| >= length
    requires Indexes(ix, gs, length, loss)
    ensures AllLong(gs + [group], length)
    ensures Indexes(AddGroup(ix, length, loss, group), gs + [group], length, loss)
  {
    var hs := gs + [group];
    assert hs[..|gs|] == gs;
    forall g | 0 <= g <= |gs| ensures hs[..g] == gs[..g] {}
    assert gs[..|gs|] == gs;
  }

  lemma LongGroupKept(c: Columns, rows: seq<Row>, keys: seq<Key>, length: nat, sort: seq<Row> -> seq<Row>, n: nat)
    requires n < |keys| && |sort(GroupRows(c, rows, keys[n]))| >= length
    ensures LongGroups(c, rows, keys, length, sort) != []
  {
    LongGroupsStep(c, rows, keys, length, sort, n);
    LongGroupsLater(c, rows, keys, length, sort, n + 1);
  }

  lemma {:induction false} LongGroupsLater(c: Columns, rows: seq<Row>, keys: seq<Key>, length: nat, sort: seq<Row> -> seq<Row>, n: nat)
    requires n <= |keys| && LongGroups(c, rows, keys[..n], length, sort) != []
    ensures LongGroups(c, rows, keys, length, sort) != []
    decreases |keys| - n
  {
    if n == |keys| {
      assert keys[..n] == keys;
    } else {
      LongGroupsStep(c, rows, keys, length, sort, n);
      LongGroupsLater(c, rows, keys, length, sort, n + 1);
    }
  }

  /** Without shuffling, the batches of an epoch are, row for row, the materialised windows and their
      alpha targets, and row j belongs to row j of both endpoint tables. */
  method UnshuffledEpochIsTable(f: Frame, length: nat, batchSize: nat, loss: GateLoss, draw: nat -> nat, sort: seq<Row> -> seq<Row>)
    returns (r: Result<WindowTable>, xs: seq<seq<seq<real>>>, ys: seq<seq<real>>, endpoints: seq<Row>)
    ensures r.Ok? <==> Rejection(f, length, batchSize, loss, sort) == None
    ensures r.Ok? ==>
              && IsWindowTable(r.value, Groups(f, length, sort), length)
              && xs == r.value.windows && endpoints == r.value.endpoints
              && |ys| == |xs| == |endpoints|
              && (forall j :: 0 <= j < |ys| ==> TargetOfRow(loss, ys[j], endpoints[j]) && ys[j][0] == r.value.targets[j])
              && (forall j :: 0 <= j < |xs| ==> |xs[j]| == length && xs[j][length - 1] == endpoints[j].features)
  {
    xs, ys, endpoints := [], [], [];
    var s := Create(f, length, batchSize, loss, false, draw, sort);
    if s.Err? {
      return Err(s.error), xs, ys, endpoints;
    }
    r := MakeLstmWindows(f, length, sort);
    endpoints := s.value.endpoints;
    xs, ys := s.value.Epoch();
    EndpointOfWindow(s.value.rowsOf, length);
    forall j | 0 <= j < |xs| ensures xs[j] == r.value.windows[j] && TargetOfRow(loss, ys[j], endpoints[j]) {
      assert s.value.order[..][j] == Iota(s.value.totalWindows)[j];
      s.value.ServedIsEndpoint(j);
    }
  }

  /** However often the order has been shuffled, an epoch serves every window exactly once. */
  method EpochAfterShuffles(s: LstmWindowSequence, draws: seq<nat -> nat>)
    returns (xs: seq<seq<seq<real>>>, ys: seq<seq<real>>, ghost served: seq<nat>)
    requires s.Valid()
    modifies s.order
    ensures s.Valid() && |xs| == |ys| == |served| == s.totalWindows
    ensures forall p :: 0 <= p < |served| ==>
              served[p] < s.totalWindows && (xs[p], ys[p]) == Served(s.rowsOf, s.sequenceLength, s.gateLoss, served[p])
    ensures forall j :: 0 <= j < s.totalWindows ==> multiset(served)[j] == 1
  {
    for e := 0 to |draws|
      invariant s.Valid()
    {
      s.OnEpochEnd(draws[e]);
    }
    xs, ys := s.Epoch();
    served := s.order[..];
    forall j | 0 <= j < s.totalWindows ensures multiset(served)[j] == 1 {
      s.EachWindowOnce(j);
    }
  }

  /** Every row is stable and carries the label of its own target. */
  ghost predicate LabelledRows(rows: seq<Row>, minMlPidGap: real, cap: real) {
    forall i :: 0 <= i < |rows| ==>
      var s := GateTarget.Sample(rows[i].target, rows[i].yPid, rows[i].yMl);
      GateTarget.StableGap(s, minMlPidGap) && rows[i].alpha == GateTarget.AlphaStar(s, minMlPidGap, cap)
  }

  /** Under the fused loss, in whatever order the windows are served, the label each batch row carries is
      the gate output with the smallest loss for that row's own target. */
  method FusedEpochTrainsOnLabels(s: LstmWindowSequence, minMlPidGap: real, cap: real)
    returns (xs: seq<seq<seq<real>>>, ys: seq<seq<real>>)
    requires s.Valid() && s.gateLoss == FusedHuber && 0.0 < cap <= 1.0
    requires LabelledRows(s.endpoints, minMlPidGap, cap)
    ensures |xs| == |ys| == s.totalWindows
    ensures forall p :: 0 <= p < |ys| ==> GateTarget.TrainsOnLabel(ys[p], cap)
  {
    xs, ys := s.Epoch();
    forall p | 0 <= p < |ys| ensures GateTarget.TrainsOnLabel(ys[p], cap) {
      s.ServedIsEndpoint(s.order[p]);
      LabelledTargetTrains(ys[p], s.endpoints[s.order[p]], minMlPidGap, cap);
    }
  }

  lemma LabelledTargetTrains(y: seq<real>, e: Row, minMlPidGap: real, cap: real)
    requires TargetOfRow(FusedHuber, y, e) && 0.0 < cap <= 1.0 && LabelledRows([e], minMlPidGap, cap)
    ensures GateTarget.TrainsOnLabel(y, cap)
  {
    assert [e][0] == e;
    var s := GateTarget.Sample(e.target, e.yPid, e.yMl);
    forall a | 0.0 <= a <= cap ensures GateTarget.LossOfTarget(y, y[0], 0.0) <= GateTarget.LossOfTarget(y, a, 0.0) {
      GateTarget.AlphaStarMinimisesLoss(s, minMlPidGap, cap, a);
    }
    GateTarget.AlphaStarIsTheMinimiser(s, minMlPidGap, cap, 0.0);
  }

  lemma {:induction false} IotaCounts(n: nat, j: nat)
    requires j < n
    ensures multiset(Iota(n))[j] == 1
  {
    var s := Iota(n);
    assert s == s[..j] + [j] + s[j + 1..];
    assert j !in s[..j] && j !in s[j + 1..];
  }

  lemma BatchesCover(total: nat, batch: nat)
    requires batch >= 1
    ensures (total + batch - 1) / batch * batch >= total
  {
    var n := total + batch - 1;
    assert n == n / batch * batch + n % batch;
  }

  lemma NextBatch(total: nat, batch: nat, index: nat)
    requires batch >= 1 && index < (total + batch - 1) / batch
    ensures index * batch < total
    ensures (index + 1) * batch == index * batch + batch
  {
    var n := total + batch - 1;
    assert n == n / batch * batch + n % batch;
    assert (index + 1) * batch <= n / batch * batch by { MulMonotone(index + 1, n / batch, batch); }
  }

  lemma MulMonotone(a: nat, b: nat, c: nat)
    requires a <= b
    ensures a * c <= b * c
  {
    assert b * c == a * c + (b - a) * c;
  }
}
