// Shard data is written back to back while offsets are rounded up to 32: when the two agree,
// and why a reader of the shard then finds every tensor's own bytes.
module Placement {
  import opened Wrappers
  import opened Bytes
  import opened Parser
  import opened Sorting
  import opened Regions
  import opened Writer

  // Every size but the last of the order is a multiple of 32.
  ghost predicate UnpaddedOrder(sizes: seq<nat>, order: seq<nat>)
    requires Indexes(order, sizes)
  {
    forall k :: 0 <= k < |order| - 1 ==> sizes[order[k]] % ALIGNMENT == 0
  }

  lemma CursorStep(sizes: seq<nat>, order: seq<nat>, k: nat)
    requires k < |order| && Indexes(order, sizes)
    ensures Cursor(sizes, order, k + 1) == AlignUp(Cursor(sizes, order, k) + sizes[order[k]])
    ensures SizeSum(sizes, order, k + 1) == SizeSum(sizes, order, k) + sizes[order[k]]
    ensures Cursor(sizes, order, k) % ALIGNMENT == 0
  {
    AlignUpMeaning(Cursor(sizes, order, k) + sizes[order[k]]);
  }

  lemma {:induction false} UnpaddedCursor(sizes: seq<nat>, order: seq<nat>, k: nat)
    requires k < |order| && Indexes(order, sizes) && UnpaddedOrder(sizes, order)
    ensures Cursor(sizes, order, k) == SizeSum(sizes, order, k)
    decreases k
  {
    hide *;
    if k == 0 {
      CursorStarts(sizes, order);
    } else {
      UnpaddedCursor(sizes, order, k - 1);
      CursorStep(sizes, order, k - 1);
      UnpaddedAt(sizes, order, k - 1);
      MultiplesAdd(Cursor(sizes, order, k - 1), sizes[order[k - 1]]);
    }
  }

  lemma CursorStarts(sizes: seq<nat>, order: seq<nat>)
    requires Indexes(order, sizes)
    ensures Cursor(sizes, order, 0) == 0 == SizeSum(sizes, order, 0)
  {
  }

  lemma UnpaddedAt(sizes: seq<nat>, order: seq<nat>, k: nat)
    requires Indexes(order, sizes) && UnpaddedOrder(sizes, order) && k + 1 < |order|
    ensures order[k] < |sizes| && sizes[order[k]] % ALIGNMENT == 0
  {
  }

  lemma MultiplesAdd(a: nat, d: nat)
    requires a % ALIGNMENT == 0
    ensures AlignUp(a + d) == a + d <==> d % ALIGNMENT == 0
    ensures (a + d) % ALIGNMENT == 0 <==> d % ALIGNMENT == 0
  {
  }

  // Each tensor is announced where its data is written.
  ghost predicate Placed(sizes: seq<nat>, order: seq<nat>)
    requires Indexes(order, sizes)
  {
    forall k :: 0 <= k < |order| ==> Cursor(sizes, order, k) == SizeSum(sizes, order, k)
  }

  lemma PlacedSizeAligned(sizes: seq<nat>, order: seq<nat>, k: nat)
    requires Indexes(order, sizes) && Placed(sizes, order) && k + 1 < |order|
    ensures sizes[order[k]] % ALIGNMENT == 0
  {
    assert Cursor(sizes, order, k) == SizeSum(sizes, order, k);
    assert Cursor(sizes, order, k + 1) == SizeSum(sizes, order, k + 1);
    CursorStep(sizes, order, k);
    MultiplesAdd(Cursor(sizes, order, k), sizes[order[k]]);
  }

  // The announced offsets are the places the data is written to exactly when no size but the
  // last one needs rounding.
  lemma PlacementExact(sizes: seq<nat>, order: seq<nat>)
    requires Indexes(order, sizes)
    ensures Placed(sizes, order) <==> UnpaddedOrder(sizes, order)
  {
    if UnpaddedOrder(sizes, order) {
      forall k | 0 <= k < |order|
        ensures Cursor(sizes, order, k) == SizeSum(sizes, order, k)
      {
        UnpaddedCursor(sizes, order, k);
      }
    }
    if Placed(sizes, order) {
      forall k | 0 <= k < |order| - 1
        ensures sizes[order[k]] % ALIGNMENT == 0
      {
        PlacedSizeAligned(sizes, order, k);
      }
    }
  }

  // ---------------------------------------------------------------------------
  // Aligned sources
  // ---------------------------------------------------------------------------

  // Offsets are distinct multiples of 32, as the format demands.
  ghost predicate Aligned(ts: seq<TensorInfo>) {
    && (forall i :: 0 <= i < |ts| ==> ts[i].offset % ALIGNMENT == 0)
    && (forall i, j :: 0 <= i < j < |ts| ==> ts[i].offset != ts[j].offset)
  }

  lemma OffsetsApart(ts: seq<TensorInfo>, i: nat, j: nat)
    requires Aligned(ts) && i < |ts| && j < |ts| && i != j
    ensures ts[i].offset != ts[j].offset
  {
  }

  lemma AlignedAntisymmetric(ts: seq<TensorInfo>, indices: seq<nat>)
    requires Aligned(ts) && Indexes(indices, ts)
    ensures Antisymmetric(indices, ByOffset(ts))
  {
    forall x, y | x in indices && y in indices && ByOffset(ts)(x, y) && ByOffset(ts)(y, x)
      ensures x == y
    {
      if x != y {
        OffsetsApart(ts, x, y);
      }
    }
  }

  lemma {:induction false} GapAligned(ts: seq<TensorInfo>, dataStart: nat, fileSize: nat, i: nat, j: nat)
    requires Aligned(ts) && LastFits(ts, dataStart, fileSize)
    requires i < |ts| && j < |ts| && ts[i].offset < ts[j].offset
    ensures DataSizes(ts, dataStart, fileSize).value[i] % ALIGNMENT == 0
    ensures DataSizes(ts, dataStart, fileSize).value[i] > 0
  {
    hide WholeOrder, DataSizes, LastFits;
    var sorted := WholeOrder(ts);
    WholeOrderMeaning(ts);
    WholeOrderHas(ts, i);
    WholeOrderHas(ts, j);
    var a, b := Position(sorted, i), Position(sorted, j);
    if b <= a {
      OrderedAt(ts, b, a);
      assert false;
    }
    SizeIsGap(ts, a, dataStart, fileSize);
    assert Distinct(sorted);
    OffsetsApart(ts, sorted[a], sorted[a + 1]);
    OrderedAt(ts, a, a + 1);
  }

  // Whatever selection of tensors a shard holds, only its last one in file order can be the
  // last one of the source, so all others have positive sizes that are multiples of 32.
  lemma AlignedShard(ts: seq<TensorInfo>, dataStart: nat, fileSize: nat, indices: seq<nat>, k: nat)
    requires Aligned(ts) && LastFits(ts, dataStart, fileSize)
    requires Indexes(indices, ts) && Distinct(indices) && k + 1 < |indices|
    ensures FileOrder(ts, indices)[k] < |ts|
    ensures var size := DataSizes(ts, dataStart, fileSize).value[FileOrder(ts, indices)[k]];
            size > 0 && size % ALIGNMENT == 0
  {
    hide FileOrder, DataSizes, LastFits;
    var order := FileOrder(ts, indices);
    FileOrderMeaning(ts, indices);
    FileOrderIndexes(ts, indices);
    DistinctPermutation(indices, order);
    assert ByOffset(ts)(order[k], order[k + 1]);
    OffsetsApart(ts, order[k], order[k + 1]);
    GapAligned(ts, dataStart, fileSize, order[k], order[k + 1]);
  }

  // ---------------------------------------------------------------------------
  // Reading a shard's tensors back
  // ---------------------------------------------------------------------------

  // What the selection must satisfy for the shard to be readable.
  ghost predicate Readable(ts: seq<TensorInfo>, sizes: seq<nat>, indices: seq<nat>) {
    && |sizes| == |ts|
    && Indexes(indices, ts)
    && Distinct(indices)
    && Antisymmetric(indices, ByOffset(ts))
    && Indexes(FileOrder(ts, indices), sizes)
    && forall k :: 0 <= k < |indices| - 1 ==>
         && sizes[FileOrder(ts, indices)[k]] > 0
         && sizes[FileOrder(ts, indices)[k]] % ALIGNMENT == 0
  }

  lemma AlignedReadable(ts: seq<TensorInfo>, dataStart: nat, fileSize: nat, indices: seq<nat>)
    requires Aligned(ts) && LastFits(ts, dataStart, fileSize)
    requires Indexes(indices, ts) && Distinct(indices)
    ensures Readable(ts, DataSizes(ts, dataStart, fileSize).value, indices)
  {
    AlignedAntisymmetric(ts, indices);
    FileOrderIndexes(ts, indices);
    hide FileOrder, DataSizes, LastFits;
    forall k | 0 <= k < |indices| - 1
      ensures var size := DataSizes(ts, dataStart, fileSize).value[FileOrder(ts, indices)[k]];
              size > 0 && size % ALIGNMENT == 0
    {
      AlignedShard(ts, dataStart, fileSize, indices, k);
    }
  }

  lemma {:induction false} CursorIncreases(sizes: seq<nat>, order: seq<nat>, i: nat, j: nat)
    requires i < j < |order| && Indexes(order, sizes)
    requires forall k :: 0 <= k < |order| - 1 ==> sizes[order[k]] > 0
    ensures Cursor(sizes, order, i) < Cursor(sizes, order, j)
    decreases j
  {
    CursorStep(sizes, order, j - 1);
    AlignUpMeaning(Cursor(sizes, order, j - 1) + sizes[order[j - 1]]);
    if i < j - 1 {
      CursorIncreases(sizes, order, i, j - 1);
    }
  }

  // The k-th tensor in file order is announced at the k-th cursor.
  lemma InfoOffset(ts: seq<TensorInfo>, sizes: seq<nat>, indices: seq<nat>, k: nat, j: nat)
    requires Readable(ts, sizes, indices) && k < |indices| && j < |indices|
    requires indices[k] == FileOrder(ts, indices)[j]
    ensures ShardInfos(ts, sizes, indices)[k] == ts[indices[k]].(offset := Cursor(sizes, FileOrder(ts, indices), j))
  {
    var order := FileOrder(ts, indices);
    FileOrderMeaning(ts, indices);
    DistinctPermutation(indices, order);
    NewOffsetsAt(sizes, order, |order|, j);
  }

  lemma PlaceOf(ts: seq<TensorInfo>, indices: seq<nat>, k: nat) returns (j: nat)
    requires k < |indices|
    ensures j < |indices| && FileOrder(ts, indices)[j] == indices[k]
  {
    FileOrderHas(ts, indices, k);
    j :| 0 <= j < |indices| && FileOrder(ts, indices)[j] == indices[k];
  }

  // New offsets never reverse the order of the old ones.
  lemma NewOrderReflects(ts: seq<TensorInfo>, sizes: seq<nat>, indices: seq<nat>, a: nat, b: nat)
    requires Readable(ts, sizes, indices) && a < |indices| && b < |indices|
    requires ShardInfos(ts, sizes, indices)[a].offset <= ShardInfos(ts, sizes, indices)[b].offset
    ensures ByOffset(ts)(indices[a], indices[b])
  {
    var order := FileOrder(ts, indices);
    FileOrderMeaning(ts, indices);
    var i := PlaceOf(ts, indices, a);
    var j := PlaceOf(ts, indices, b);
    InfoOffset(ts, sizes, indices, a, i);
    InfoOffset(ts, sizes, indices, b, j);
    hide FileOrder, ShardInfos;
    if j < i {
      CursorIncreases(sizes, order, j, i);
    } else if i < j {
      assert ByOffset(ts)(order[i], order[j]);
    }
  }

  // Sorting the shard's own tensor infos recovers the file order it was written in.
  lemma ShardOrder(ts: seq<TensorInfo>, sizes: seq<nat>, indices: seq<nat>)
    requires Readable(ts, sizes, indices)
    ensures var w := WholeOrder(ShardInfos(ts, sizes, indices));
            Indexes(w, indices) && Gather(indices, w) == FileOrder(ts, indices)
  {
    var infos := ShardInfos(ts, sizes, indices);
    var w := WholeOrder(infos);
    WholeOrderMeaning(infos);
    GatherRange(indices, w);
    var g := Gather(indices, w);
    FileOrderMeaning(ts, indices);
    hide WholeOrder, FileOrder, ShardInfos;
    forall a, b | 0 <= a < b < |g|
      ensures ByOffset(ts)(g[a], g[b])
    {
      OrderedAt(infos, a, b);
      NewOrderReflects(ts, sizes, indices, w[a], w[b]);
    }
    forall x | x in g ensures x in indices {
      SamePermutationMembers(g, indices, x);
    }
    OneSortedOrder(g, FileOrder(ts, indices), ByOffset(ts));
  }

  lemma OrderedInfoOffset(ts: seq<TensorInfo>, sizes: seq<nat>, indices: seq<nat>, k: nat)
    requires Readable(ts, sizes, indices) && k < |indices|
    ensures var infos := ShardInfos(ts, sizes, indices);
            var w := WholeOrder(infos);
            && w[k] < |indices|
            && indices[w[k]] == FileOrder(ts, indices)[k]
            && infos[w[k]].offset == SizeSum(sizes, FileOrder(ts, indices), k)
  {
    ShardOrder(ts, sizes, indices);
    var infos := ShardInfos(ts, sizes, indices);
    var w := WholeOrder(infos);
    var order := FileOrder(ts, indices);
    hide WholeOrder, FileOrder, ShardInfos;
    assert Gather(indices, w)[k] == indices[w[k]];
    InfoOffset(ts, sizes, indices, w[k], k);
    UnpaddedCursor(sizes, order, k);
  }

  function ShardSizes(sizes: seq<nat>, indices: seq<nat>): (r: seq<nat>)
    requires Indexes(indices, sizes)
    ensures |r| == |indices| && forall k :: 0 <= k < |indices| ==> r[k] == sizes[indices[k]]
  {
    seq(|indices|, k requires 0 <= k < |indices| && Indexes(indices, sizes) => sizes[indices[k]])
  }

  // Where the k-th tensor in file order ends: at the next one's offset, or with the data.
  lemma NextOffset(ts: seq<TensorInfo>, sizes: seq<nat>, indices: seq<nat>, k: nat, end: nat)
    requires Readable(ts, sizes, indices) && k < |indices|
    requires end == SizeSum(sizes, FileOrder(ts, indices), |indices|)
    ensures var infos := ShardInfos(ts, sizes, indices);
            var w := WholeOrder(infos); (
            && w[k] < |indices|
            && (if k + 1 < |indices| then Offset(infos, w[k + 1]) else end)
            == Offset(infos, w[k]) + sizes[indices[w[k]]])
  {
    OrderedInfoOffset(ts, sizes, indices, k);
    CursorStep(sizes, FileOrder(ts, indices), k);
    if k + 1 < |indices| {
      OrderedInfoOffset(ts, sizes, indices, k + 1);
    }
    hide WholeOrder, FileOrder, ShardInfos, SizeSum, Readable;
  }

  lemma ShardGap(ts: seq<TensorInfo>, sizes: seq<nat>, indices: seq<nat>, dataStart: nat, k: nat)
    requires Readable(ts, sizes, indices) && k < |indices|
    ensures WholeOrder(ShardInfos(ts, sizes, indices))[k] < |indices|
    ensures var infos := ShardInfos(ts, sizes, indices);
            var end := dataStart + SizeSum(sizes, FileOrder(ts, indices), |indices|); (
            && sizes[indices[WholeOrder(infos)[k]]] == Gap(infos, WholeOrder(infos), k, dataStart, end)
            && (k + 1 == |indices| ==> dataStart + Offset(infos, WholeOrder(infos)[k]) <= end))
  {
    hide WholeOrder, FileOrder, ShardInfos, SizeSum, Offset;
    NextOffset(ts, sizes, indices, k, SizeSum(sizes, FileOrder(ts, indices), |indices|));
  }

  // The sizes a reader computes for the shard are the sizes the tensors had in the source.
  lemma ShardSizesRecovered(ts: seq<TensorInfo>, sizes: seq<nat>, indices: seq<nat>, dataStart: nat)
    requires Readable(ts, sizes, indices)
    ensures DataSizes(ShardInfos(ts, sizes, indices), dataStart,
                      dataStart + SizeSum(sizes, FileOrder(ts, indices), |indices|))
         == Success(ShardSizes(sizes, indices))
  {
    hide WholeOrder, FileOrder, ShardInfos, DataSizes, SizeSum, Gap;
    var infos := ShardInfos(ts, sizes, indices);
    var w := WholeOrder(infos);
    var end := dataStart + SizeSum(sizes, FileOrder(ts, indices), |indices|);
    forall k | 0 <= k < |infos|
      ensures w[k] < |infos| && ShardSizes(sizes, indices)[w[k]] == Gap(infos, w, k, dataStart, end)
    {
      ShardGap(ts, sizes, indices, dataStart, k);
    }
    if infos != [] {
      ShardGap(ts, sizes, indices, dataStart, |infos| - 1);
    }
    GapsAreSizes(infos, dataStart, end, ShardSizes(sizes, indices));
  }

  lemma {:induction false} BodyAt(data: seq<byte>, ts: seq<TensorInfo>, sizes: seq<nat>, dataStart: nat,
                                  order: seq<nat>, n: nat, k: nat)
    requires |sizes| == |ts| && RegionsInside(data, ts, sizes, dataStart) && Indexes(order, ts)
    requires k < n <= |order|
    ensures At(Body(data, ts, sizes, dataStart, order, n), SizeSum(sizes, order, k),
               Region(data, ts, sizes, dataStart, order[k]))
    decreases n
  {
    hide Region, RegionsInside;
    var body := Body(data, ts, sizes, dataStart, order, n);
    var init := Body(data, ts, sizes, dataStart, order, n - 1);
    AtSelf(body);
    AtSplit(body, 0, init, Region(data, ts, sizes, dataStart, order[n - 1]));
    if k < n - 1 {
      BodyAt(data, ts, sizes, dataStart, order, n - 1, k);
      AtPrefix(init, Region(data, ts, sizes, dataStart, order[n - 1]), SizeSum(sizes, order, k),
               Region(data, ts, sizes, dataStart, order[k]));
    }
  }

  lemma AtPrefix(a: seq<byte>, b: seq<byte>, off: nat, s: seq<byte>)
    requires At(a, off, s)
    ensures At(a + b, off, s)
  {
    assert (a + b)[off..off + |s|] == a[off..off + |s|];
  }

  lemma AtInside(data: seq<byte>, off: nat, body: seq<byte>, rel: nat, s: seq<byte>)
    requires At(data, off, body) && At(body, rel, s)
    ensures At(data, off + rel, s)
  {
    forall i | 0 <= i < |s|
      ensures data[off + rel + i] == s[i]
    {
      assert data[off + rel + i] == data[off..off + |body|][rel + i] == body[rel + i];
      assert s[i] == body[rel..rel + |s|][i];
    }
  }

  // The bytes at a tensor's new offset are the bytes of its region in the source.
  lemma ShardBytesRecovered(data: seq<byte>, ts: seq<TensorInfo>, sizes: seq<nat>, dataStart: nat, indices: seq<nat>,
                            file: seq<byte>, newStart: nat, k: nat)
    requires Readable(ts, sizes, indices) && RegionsInside(data, ts, sizes, dataStart) && k < |indices|
    requires At(file, newStart, ShardBody(data, ts, sizes, dataStart, indices))
    ensures At(file, newStart + ShardInfos(ts, sizes, indices)[k].offset,
               Region(data, ts, sizes, dataStart, indices[k]))
  {
    var order := FileOrder(ts, indices);
    FileOrderIndexes(ts, indices);
    var j := PlaceOf(ts, indices, k);
    InfoOffset(ts, sizes, indices, k, j);
    UnpaddedCursor(sizes, order, j);
    BodyAt(data, ts, sizes, dataStart, order, |order|, j);
    hide FileOrder, ShardInfos, Region, RegionsInside, At, Body;
    AtInside(file, newStart, ShardBody(data, ts, sizes, dataStart, indices), SizeSum(sizes, order, j),
             Region(data, ts, sizes, dataStart, indices[k]));
  }
}
