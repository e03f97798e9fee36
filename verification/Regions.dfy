// The byte region of each tensor: from its offset to the next offset, or to the end of the file.
module Regions {
  import opened Wrappers
  import opened Reader
  import opened Parser
  import opened Sorting

  function Offset(ts: seq<TensorInfo>, i: nat): nat {
    if i < |ts| then ts[i].offset else 0
  }

  function ByOffset(ts: seq<TensorInfo>): (nat, nat) -> bool {
    (i: nat, j: nat) => Offset(ts, i) <= Offset(ts, j)
  }

  // The given indices in the order of their tensors' offsets.
  function FileOrder(ts: seq<TensorInfo>, indices: seq<nat>): (r: seq<nat>)
    ensures |r| == |indices|
  {
    Sort(indices, ByOffset(ts))
  }

  lemma ByOffsetOrders(ts: seq<TensorInfo>)
    ensures TotalPreorder(ByOffset(ts))
  {
  }

  lemma FileOrderMeaning(ts: seq<TensorInfo>, indices: seq<nat>)
    ensures Permutation(FileOrder(ts, indices), indices)
    ensures Sorted(FileOrder(ts, indices), ByOffset(ts))
  {
    ByOffsetOrders(ts);
    SortPermutes(indices, ByOffset(ts));
    SortSorts(indices, ByOffset(ts));
  }

  // The first position at which x occurs.
  function Position(s: seq<nat>, x: nat): (j: nat)
    ensures x in s ==> j < |s| && s[j] == x
  {
    if s == [] || s[0] == x then 0 else Position(s[1..], x) + 1
  }

  // From the j-th tensor in file order to the next, or to the end of the file.
  function Gap(ts: seq<TensorInfo>, sorted: seq<nat>, j: nat, dataStart: nat, fileSize: nat): int
    requires j < |sorted|
  {
    if j + 1 < |sorted| then Offset(ts, sorted[j + 1]) - Offset(ts, sorted[j])
    else fileSize - (dataStart + Offset(ts, sorted[j]))
  }

  function WholeOrder(ts: seq<TensorInfo>): (r: seq<nat>)
    ensures |r| == |ts|
  {
    FileOrder(ts, Range(|ts|))
  }

  // The sizes go by offset, and among equal offsets by the order of the tensor infos.
  lemma WholeOrderStable(ts: seq<TensorInfo>, j: nat, k: nat)
    requires j < k < |ts|
    ensures var a, b := WholeOrder(ts)[j], WholeOrder(ts)[k];
            Offset(ts, a) < Offset(ts, b) || (Offset(ts, a) == Offset(ts, b) && a < b)
  {
    ByOffsetOrders(ts);
    SortStable(Range(|ts|), ByOffset(ts));
  }

  // The only subtraction that can underflow is the last one.
  predicate LastFits(ts: seq<TensorInfo>, dataStart: nat, fileSize: nat) {
    ts == [] || dataStart + Offset(ts, WholeOrder(ts)[|ts| - 1]) <= fileSize
  }

  lemma GapNonNegative(ts: seq<TensorInfo>, j: nat, dataStart: nat, fileSize: nat)
    requires LastFits(ts, dataStart, fileSize) && j < |ts|
    ensures Gap(ts, WholeOrder(ts), j, dataStart, fileSize) >= 0
  {
    if j + 1 < |ts| {
      OrderedAt(ts, j, j + 1);
    }
  }

  function SizeOf(ts: seq<TensorInfo>, i: nat, dataStart: nat, fileSize: nat): nat
    requires i < |ts| && LastFits(ts, dataStart, fileSize)
  {
    WholeOrderHas(ts, i);
    var j := Position(WholeOrder(ts), i);
    GapNonNegative(ts, j, dataStart, fileSize);
    Gap(ts, WholeOrder(ts), j, dataStart, fileSize)
  }

  function DataSizes(ts: seq<TensorInfo>, dataStart: nat, fileSize: nat): (r: Result<seq<nat>, Error>)
    ensures r.Success? ==> |r.value| == |ts|
  {
    if LastFits(ts, dataStart, fileSize) then
      Success(seq(|ts|, i requires 0 <= i < |ts| && LastFits(ts, dataStart, fileSize) =>
        SizeOf(ts, i, dataStart, fileSize)))
    else Failure(Overflow)
  }

  lemma WholeOrderHas(ts: seq<TensorInfo>, i: nat)
    requires i < |ts|
    ensures i in WholeOrder(ts)
  {
    FileOrderMeaning(ts, Range(|ts|));
    RangePermutation(WholeOrder(ts), |ts|);
  }

  lemma WholeOrderMeaning(ts: seq<TensorInfo>)
    ensures Distinct(WholeOrder(ts))
    ensures forall j :: 0 <= j < |ts| ==> WholeOrder(ts)[j] < |ts|
    ensures Permutation(WholeOrder(ts), Range(|ts|))
    ensures Sorted(WholeOrder(ts), ByOffset(ts))
  {
    var sorted := WholeOrder(ts);
    FileOrderMeaning(ts, Range(|ts|));
    RangePermutation(sorted, |ts|);
    forall j | 0 <= j < |ts| ensures sorted[j] < |ts| {
      assert sorted[j] in sorted;
    }
  }

  lemma OrderedAt(ts: seq<TensorInfo>, i: nat, j: nat)
    requires i <= j < |ts|
    ensures Offset(ts, WholeOrder(ts)[i]) <= Offset(ts, WholeOrder(ts)[j])
  {
    WholeOrderMeaning(ts);
    if i < j {
      var sorted := WholeOrder(ts);
      assert ByOffset(ts)(sorted[i], sorted[j]);
    }
  }

  // The size recorded for the j-th tensor in file order is its gap.
  lemma SizeIsGap(ts: seq<TensorInfo>, j: nat, dataStart: nat, fileSize: nat)
    requires LastFits(ts, dataStart, fileSize) && j < |ts|
    ensures WholeOrder(ts)[j] < |ts|
    ensures DataSizes(ts, dataStart, fileSize).value[WholeOrder(ts)[j]]
         == Gap(ts, WholeOrder(ts), j, dataStart, fileSize)
  {
    WholeOrderMeaning(ts);
    var sorted := WholeOrder(ts);
    assert sorted[j] in sorted;
    assert Position(sorted, sorted[j]) == j;
  }

  method ComputeDataSizes(ts: seq<TensorInfo>, dataStart: nat, fileSize: nat) returns (r: Result<seq<nat>, Error>)
    ensures r == DataSizes(ts, dataStart, fileSize)
  {
    hide WholeOrder, DataSizes;
    var n := |ts|;
    var sizes: seq<nat> := seq(n, _ => 0);
    var sorted := WholeOrder(ts);
    WholeOrderMeaning(ts);
    for j := 0 to |sorted|
      invariant |sizes| == n
      invariant j == n ==> LastFits(ts, dataStart, fileSize)
      invariant forall k :: 0 <= k < j ==> sizes[sorted[k]] == Gap(ts, sorted, k, dataStart, fileSize)
    {
      var idx := sorted[j];
      var size: nat;
      if j + 1 < |sorted| {
        OrderedAt(ts, j, j + 1);
        size := ts[sorted[j + 1]].offset - ts[idx].offset;
      } else {
        if fileSize < dataStart + ts[idx].offset {
          DataSizesFail(ts, dataStart, fileSize);
          return Failure(Overflow);
        }
        size := fileSize - (dataStart + ts[idx].offset);
      }
      sizes := sizes[idx := size];
    }
    GapsAreSizes(ts, dataStart, fileSize, sizes);
    r := Success(sizes);
  }

  lemma DataSizesFail(ts: seq<TensorInfo>, dataStart: nat, fileSize: nat)
    requires !LastFits(ts, dataStart, fileSize)
    ensures DataSizes(ts, dataStart, fileSize) == Failure(Overflow)
  {
  }

  // The gaps in file order determine the sizes.
  lemma GapsAreSizes(ts: seq<TensorInfo>, dataStart: nat, fileSize: nat, sizes: seq<nat>)
    requires LastFits(ts, dataStart, fileSize) && |sizes| == |ts|
    requires forall k :: 0 <= k < |ts| ==> WholeOrder(ts)[k] < |ts|
    requires forall k :: 0 <= k < |ts| ==>
               sizes[WholeOrder(ts)[k]] == Gap(ts, WholeOrder(ts), k, dataStart, fileSize)
    ensures DataSizes(ts, dataStart, fileSize) == Success(sizes)
  {
    hide WholeOrder, LastFits, Gap, Offset;
    forall i | 0 <= i < |ts|
      ensures sizes[i] == DataSizes(ts, dataStart, fileSize).value[i]
    {
      WholeOrderHas(ts, i);
      SizeIsGap(ts, Position(WholeOrder(ts), i), dataStart, fileSize);
    }
    assert DataSizes(ts, dataStart, fileSize).value == sizes;
  }

  // ---------------------------------------------------------------------------
  // Tiling
  // ---------------------------------------------------------------------------

  // Bytes of the first k tensors of an order.
  function SizeSum(sizes: seq<nat>, order: seq<nat>, k: nat): nat
    requires k <= |order| && Indexes(order, sizes)
  {
    if k == 0 then 0 else SizeSum(sizes, order, k - 1) + sizes[order[k - 1]]
  }

  // No gap and no overlap: in file order each region starts where the previous one ends,
  // and the last one ends with the file.
  lemma RegionsTile(ts: seq<TensorInfo>, dataStart: nat, fileSize: nat, j: nat)
    requires LastFits(ts, dataStart, fileSize) && j < |ts|
    ensures var sizes := DataSizes(ts, dataStart, fileSize).value;
            var sorted := WholeOrder(ts);
            && sorted[j] < |ts|
            && Offset(ts, sorted[j]) + sizes[sorted[j]]
            == (if j + 1 < |ts| then Offset(ts, sorted[j + 1]) else fileSize - dataStart)
  {
    SizeIsGap(ts, j, dataStart, fileSize);
  }

  // Regions of different tensors share no byte.
  lemma RegionsDisjoint(ts: seq<TensorInfo>, dataStart: nat, fileSize: nat, a: nat, b: nat)
    requires LastFits(ts, dataStart, fileSize) && a < |ts| && b < |ts| && a != b
    ensures var sizes := DataSizes(ts, dataStart, fileSize).value;
            || Offset(ts, a) + sizes[a] <= Offset(ts, b)
            || Offset(ts, b) + sizes[b] <= Offset(ts, a)
  {
    hide WholeOrder, DataSizes;
    var sorted := WholeOrder(ts);
    WholeOrderMeaning(ts);
    WholeOrderHas(ts, a);
    WholeOrderHas(ts, b);
    var i, j := Position(sorted, a), Position(sorted, b);
    if i < j {
      RegionEndsBefore(ts, dataStart, fileSize, i, j);
    } else {
      RegionEndsBefore(ts, dataStart, fileSize, j, i);
    }
  }

  lemma RegionEndsBefore(ts: seq<TensorInfo>, dataStart: nat, fileSize: nat, i: nat, j: nat)
    requires LastFits(ts, dataStart, fileSize) && i < j < |ts|
    ensures var sizes := DataSizes(ts, dataStart, fileSize).value;
            var sorted := WholeOrder(ts);
            sorted[i] < |ts| && Offset(ts, sorted[i]) + sizes[sorted[i]] <= Offset(ts, sorted[j])
  {
    hide WholeOrder, DataSizes;
    RegionsTile(ts, dataStart, fileSize, i);
    OrderedAt(ts, i + 1, j);
  }

  lemma {:induction false} SizesTelescope(ts: seq<TensorInfo>, dataStart: nat, fileSize: nat, k: nat)
    requires LastFits(ts, dataStart, fileSize) && 0 < k <= |ts|
    ensures Indexes(WholeOrder(ts), ts)
    ensures SizeSum(DataSizes(ts, dataStart, fileSize).value, WholeOrder(ts), k)
         == (if k < |ts| then Offset(ts, WholeOrder(ts)[k]) else fileSize - dataStart)
            - Offset(ts, WholeOrder(ts)[0])
  {
    WholeOrderMeaning(ts);
    hide WholeOrder, DataSizes;
    RegionsTile(ts, dataStart, fileSize, k - 1);
    if k > 1 {
      SizesTelescope(ts, dataStart, fileSize, k - 1);
    }
  }

  // The sizes add up to everything from the smallest offset to the end of the file.
  lemma SizesConserve(ts: seq<TensorInfo>, dataStart: nat, fileSize: nat)
    requires LastFits(ts, dataStart, fileSize) && ts != []
    ensures Indexes(WholeOrder(ts), ts) && Permutation(WholeOrder(ts), Range(|ts|))
    ensures forall i :: 0 <= i < |ts| ==> Offset(ts, WholeOrder(ts)[0]) <= ts[i].offset
    ensures SizeSum(DataSizes(ts, dataStart, fileSize).value, WholeOrder(ts), |ts|)
         == fileSize - dataStart - Offset(ts, WholeOrder(ts)[0])
  {
    hide WholeOrder, DataSizes;
    var sorted := WholeOrder(ts);
    SizesTelescope(ts, dataStart, fileSize, |ts|);
    WholeOrderMeaning(ts);
    forall i | 0 <= i < |ts|
      ensures Offset(ts, sorted[0]) <= ts[i].offset
    {
      WholeOrderHas(ts, i);
      OrderedAt(ts, 0, Position(sorted, i));
    }
  }

  // Sizes are computed without underflow exactly when every offset lies inside the file.
  lemma FitsMeansEveryOffsetFits(ts: seq<TensorInfo>, dataStart: nat, fileSize: nat)
    ensures DataSizes(ts, dataStart, fileSize).Success?
       <==> forall i :: 0 <= i < |ts| ==> dataStart + ts[i].offset <= fileSize
  {
    if ts != [] {
      hide WholeOrder;
      var sorted := WholeOrder(ts);
      WholeOrderMeaning(ts);
      var last := sorted[|ts| - 1];
      assert Offset(ts, last) == ts[last].offset;
      forall i | 0 <= i < |ts|
        ensures ts[i].offset <= ts[last].offset
      {
        WholeOrderHas(ts, i);
        OrderedAt(ts, Position(sorted, i), |ts| - 1);
      }
    }
  }
}
