// Splitting a written shard again, with room for all its layers, reproduces it byte for byte.
module Idempotence {
  import opened Wrappers
  import opened Bytes
  import opened Parser
  import opened Sorting
  import opened Names
  import opened Layers
  import opened Selection
  import opened Regions
  import opened Format
  import opened Writer
  import opened Placement
  import opened Split
  import opened Lossless
  import Metadata

  // ---------------------------------------------------------------------------
  // Grouping an already grouped list changes nothing
  // ---------------------------------------------------------------------------

  // Layers never step back along the list, and tensors without a layer come last.
  ghost predicate LayerOrdered(ts: seq<TensorInfo>, numLayers: nat) {
    forall a, b :: 0 <= a < b < |ts| ==> GroupOf(ts[a], numLayers) <= GroupOf(ts[b], numLayers)
  }

  function AtMost(): (nat, nat) -> bool {
    (a: nat, b: nat) => a <= b
  }

  lemma {:induction false} MembersAscend(ts: seq<TensorInfo>, numLayers: nat, g: nat, upTo: nat)
    requires upTo <= |ts|
    ensures Sorted(Members(ts, numLayers, g, upTo), AtMost())
    ensures forall i :: i in Members(ts, numLayers, g, upTo) ==> i < upTo
    decreases upTo
  {
    hide GroupOf;
    if upTo > 0 {
      var before := Members(ts, numLayers, g, upTo - 1);
      MembersAscend(ts, numLayers, g, upTo - 1);
      forall k | 0 <= k < |before| ensures before[k] < upTo {
        assert before[k] in before;
      }
      SortedAppend(before, [upTo - 1]);
      forall i | i in Members(ts, numLayers, g, upTo)
        ensures i < upTo
      {
        MembersMeaning(ts, numLayers, g, upTo, i);
      }
    }
  }

  lemma {:induction false} ConcatAscends(ts: seq<TensorInfo>, numLayers: nat, hi: nat)
    requires hi <= numLayers + 1 && LayerOrdered(ts, numLayers)
    ensures Sorted(Concat(Groups(ts, numLayers), 0, hi), AtMost())
    decreases hi
  {
    if hi > 0 {
      ConcatAscends(ts, numLayers, hi - 1);
      MembersAscend(ts, numLayers, hi - 1, |ts|);
      var before := Concat(Groups(ts, numLayers), 0, hi - 1);
      var last := Groups(ts, numLayers)[hi - 1];
      assert last == Members(ts, numLayers, hi - 1, |ts|);
      hide GroupOf, Members, Groups;
      forall a, b | 0 <= a < |before| && 0 <= b < |last|
        ensures before[a] <= last[b]
      {
        assert before[a] in before && last[b] in last;
        ConcatMeaning(ts, numLayers, 0, hi - 1, before[a]);
        MembersMeaning(ts, numLayers, hi - 1, |ts|, last[b]);
      }
      SortedAppend(before, last);
      assert Concat(Groups(ts, numLayers), 0, hi) == before + last;
    }
  }

  lemma SortedAppend(a: seq<nat>, b: seq<nat>)
    requires Sorted(a, AtMost()) && Sorted(b, AtMost())
    requires forall i, j :: 0 <= i < |a| && 0 <= j < |b| ==> a[i] <= b[j]
    ensures Sorted(a + b, AtMost())
  {
  }

  // The single shard of an ordered list lists it unchanged.
  lemma OrderedSelection(ts: seq<TensorInfo>, numLayers: nat)
    requires LayerOrdered(ts, numLayers)
    ensures Chosen(Groups(ts, numLayers), 0, numLayers, true) == Range(|ts|)
  {
    var groups := Groups(ts, numLayers);
    ConcatAscends(ts, numLayers, numLayers + 1);
    GroupsPartition(ts, numLayers, |ts|);
    WholeConcat(ts, numLayers);
    hide Groups;
    assert Concat(groups, 0, numLayers + 1) == Chosen(groups, 0, numLayers, true);
    OneSortedOrder(Concat(groups, 0, numLayers + 1), Range(|ts|), AtMost());
  }

  // ---------------------------------------------------------------------------
  // A planned shard is grouped
  // ---------------------------------------------------------------------------

  lemma {:induction false} ConcatGrouped(ts: seq<TensorInfo>, numLayers: nat, lo: nat, hi: nat, a: nat, b: nat)
    requires lo <= hi <= numLayers + 1 && a < b < |Concat(Groups(ts, numLayers), lo, hi)|
    ensures var s := Concat(Groups(ts, numLayers), lo, hi); (
            s[a] < |ts| && s[b] < |ts| && GroupOf(ts[s[a]], numLayers) <= GroupOf(ts[s[b]], numLayers))
    decreases hi
  {
    if lo < hi {
      var s := Concat(Groups(ts, numLayers), lo, hi);
      var before := Concat(Groups(ts, numLayers), lo, hi - 1);
      var last := Groups(ts, numLayers)[hi - 1];
      assert last == Members(ts, numLayers, hi - 1, |ts|);
      hide GroupOf, Members, Groups;
      if b < |before| {
        ConcatGrouped(ts, numLayers, lo, hi - 1, a, b);
      } else {
        assert s[b] in last && s[a] in s;
        MembersMeaning(ts, numLayers, hi - 1, |ts|, s[b]);
        ConcatMeaning(ts, numLayers, lo, hi, s[a]);
      }
    }
  }

  lemma ChosenGrouped(ts: seq<TensorInfo>, numLayers: nat, from: nat, to: nat, tail: bool, a: nat, b: nat)
    requires from <= to <= numLayers && a < b < |Chosen(Groups(ts, numLayers), from, to, tail)|
    ensures var s := Chosen(Groups(ts, numLayers), from, to, tail); (
            s[a] < |ts| && s[b] < |ts| && GroupOf(ts[s[a]], numLayers) <= GroupOf(ts[s[b]], numLayers))
  {
    var layers := Concat(Groups(ts, numLayers), from, to);
    var s := Chosen(Groups(ts, numLayers), from, to, tail);
    hide GroupOf, Groups, Concat;
    if b < |layers| {
      ConcatGrouped(ts, numLayers, from, to, a, b);
    } else {
      var last := Groups(ts, numLayers)[numLayers];
      assert s[b] in last && s[a] in s;
      LastGroup(ts, numLayers);
      MembersMeaning(ts, numLayers, numLayers, |ts|, s[b]);
      ChosenMeaning(ts, numLayers, from, to, tail, s[a]);
    }
  }

  lemma LastGroup(ts: seq<TensorInfo>, numLayers: nat)
    ensures Groups(ts, numLayers)[numLayers] == Members(ts, numLayers, numLayers, |ts|)
  {
  }

  // Counting fewer layers does not disturb the order.
  lemma FewerLayers(ts: seq<TensorInfo>, n: nat, infos: seq<TensorInfo>)
    requires LayerOrdered(infos, n) && LayerCount(infos) <= n
    ensures LayerOrdered(infos, LayerCount(infos))
  {
    var m := LayerCount(infos);
    LayerCountIsLeast(infos);
    hide LayerId, LayerCount;
  }

  // Group numbers depend on the name alone.
  lemma GroupByName(a: TensorInfo, b: TensorInfo, n: nat)
    requires a.name == b.name
    ensures GroupOf(a, n) == GroupOf(b, n)
  {
    hide LayerId;
  }

  lemma ShardLayers(ts: seq<TensorInfo>, indices: seq<nat>, infos: seq<TensorInfo>)
    requires Indexes(indices, ts) && SameButOffsets(ts, indices, infos)
    ensures LayerCount(infos) <= LayerCount(ts)
  {
    LayerCountIsLeast(infos);
    LayerCountIsLeast(ts);
    hide LayerId, LayerCount;
    if LayerCount(infos) > 0 {
      var i :| 0 <= i < |infos| && LayerId(infos[i].name) == Some(LayerCount(infos) - 1);
      assert infos[i].name == ts[indices[i]].name;
    }
  }

  // ---------------------------------------------------------------------------
  // Writing a shard's own tensors again
  // ---------------------------------------------------------------------------

  lemma CursorsAgree(sizes: seq<nat>, order: seq<nat>, sizes': seq<nat>, order': seq<nat>, k: nat)
    requires Indexes(order, sizes) && Indexes(order', sizes') && k <= |order| == |order'|
    requires forall j :: 0 <= j < |order| ==> sizes'[order'[j]] == sizes[order[j]]
    ensures Cursor(sizes', order', k) == Cursor(sizes, order, k)
    decreases k
  {
    if k > 0 {
      CursorsAgree(sizes, order, sizes', order', k - 1);
    }
  }

  // In the shard, the k-th tensor in file order is the k-th of the selection, with the same size.
  lemma ShardSizeAt(ts: seq<TensorInfo>, sizes: seq<nat>, indices: seq<nat>, k: nat)
    requires Readable(ts, sizes, indices) && k < |indices|
    ensures var w := WholeOrder(ShardInfos(ts, sizes, indices));
            w[k] < |indices| && indices[w[k]] == FileOrder(ts, indices)[k]
            && ShardSizes(sizes, indices)[w[k]] == sizes[FileOrder(ts, indices)[k]]
  {
    ShardOrder(ts, sizes, indices);
    var w := WholeOrder(ShardInfos(ts, sizes, indices));
    assert Gather(indices, w)[k] == indices[w[k]];
  }

  lemma RewrittenInfo(ts: seq<TensorInfo>, sizes: seq<nat>, indices: seq<nat>, k: nat)
    requires Readable(ts, sizes, indices) && k < |indices|
    ensures var infos := ShardInfos(ts, sizes, indices);
            var w := WholeOrder(infos);
            w[k] < |infos| && ShardInfos(infos, ShardSizes(sizes, indices), Range(|infos|))[w[k]] == infos[w[k]]
  {
    var infos := ShardInfos(ts, sizes, indices);
    var sizes' := ShardSizes(sizes, indices);
    var w := WholeOrder(infos);
    var order := FileOrder(ts, indices);
    WholeOrderMeaning(infos);
    ShardSizeAt(ts, sizes, indices, k);
    InfoOffset(ts, sizes, indices, w[k], k);
    hide FileOrder, ShardInfos, ShardInfo, WholeOrder, ShardSizes;
    forall j | 0 <= j < |order|
      ensures sizes'[w[j]] == sizes[order[j]]
    {
      ShardSizeAt(ts, sizes, indices, j);
    }
    CursorsAgree(sizes, order, sizes', w, k);
    WholeRangeInfo(infos, sizes', k);
  }

  lemma WholeRangeInfo(infos: seq<TensorInfo>, sizes: seq<nat>, k: nat)
    requires |sizes| == |infos| && k < |infos|
    ensures var w := WholeOrder(infos); (
            && w[k] < |infos| && Indexes(w, sizes)
            && ShardInfos(infos, sizes, Range(|infos|))[w[k]] == infos[w[k]].(offset := Cursor(sizes, w, k)))
  {
    WholeOrderMeaning(infos);
    NewOffsetsAt(sizes, WholeOrder(infos), |infos|, k);
    hide FileOrder;
  }

  lemma RewrittenInfos(ts: seq<TensorInfo>, sizes: seq<nat>, indices: seq<nat>)
    requires Readable(ts, sizes, indices)
    ensures var infos := ShardInfos(ts, sizes, indices);
            ShardInfos(infos, ShardSizes(sizes, indices), Range(|infos|)) == infos
  {
    var infos := ShardInfos(ts, sizes, indices);
    var again := ShardInfos(infos, ShardSizes(sizes, indices), Range(|infos|));
    hide ShardInfos, ShardSizes, WholeOrder, Readable;
    forall i | 0 <= i < |infos|
      ensures again[i] == infos[i]
    {
      WholeOrderHas(infos, i);
      RewrittenInfo(ts, sizes, indices, Position(WholeOrder(infos), i));
    }
  }

  lemma {:induction false} BodiesAgree(data: seq<byte>, ts: seq<TensorInfo>, sizes: seq<nat>, dataStart: nat,
                                       order: seq<nat>, data': seq<byte>, ts': seq<TensorInfo>, sizes': seq<nat>,
                                       dataStart': nat, order': seq<nat>, k: nat)
    requires |sizes| == |ts| && RegionsInside(data, ts, sizes, dataStart) && Indexes(order, ts)
    requires |sizes'| == |ts'| && RegionsInside(data', ts', sizes', dataStart') && Indexes(order', ts')
    requires k <= |order| == |order'|
    requires forall j :: 0 <= j < |order| ==>
               Region(data', ts', sizes', dataStart', order'[j]) == Region(data, ts, sizes, dataStart, order[j])
    ensures Body(data', ts', sizes', dataStart', order', k) == Body(data, ts, sizes, dataStart, order, k)
    decreases k
  {
    hide Region, RegionsInside;
    if k > 0 {
      BodiesAgree(data, ts, sizes, dataStart, order, data', ts', sizes', dataStart', order', k - 1);
    }
  }

  lemma RewrittenBody(data: seq<byte>, p: Parsed, indices: seq<nat>)
    requires Splittable(data, p) && Selectable(p.tensors, indices) && p.tensors != []
    ensures var file := Written(data, p, indices);
            var q := LayoutOf(p.version, p.kvCount, RawMetadata(data, p), InfosOf(data, p, indices)); (
            LastFits(q.tensors, q.dataStart, |file|) && BodyOf(file, q, Range(|q.tensors|)) == BodyOf(data, p, indices))
  {
    hide Splittable, Selectable, Parse, TailSafe, LastFits, Aligned, Written, DataSizes, FileOrder, Readable,
         ShardInfos, RegionsInside, Region, WholeOrder, At;
    SplittableMeans(data, p);
    SelectableMeans(p.tensors, indices);
    SizesResult(p.tensors, p.dataStart, |data|);
    var ts := p.tensors;
    var sizes := DataSizes(ts, p.dataStart, |data|).value;
    var file := Written(data, p, indices);
    var q := LayoutOf(p.version, p.kvCount, RawMetadata(data, p), InfosOf(data, p, indices));
    var w := WholeOrder(q.tensors);
    WrittenLayout(data, p, indices);
    LastFitsFrom(q.tensors, q.dataStart, |file|);
    AlignedReadable(ts, p.dataStart, |data|, indices);
    RegionsAreInside(data, ts, p.dataStart);
    RegionsAreInside(file, q.tensors, q.dataStart);
    FileOrderIndexes(ts, indices);
    WholeOrderMeaning(q.tensors);
    var sizes' := ShardSizes(sizes, indices);
    forall j | 0 <= j < |indices|
      ensures Region(file, q.tensors, sizes', q.dataStart, w[j])
           == Region(data, ts, sizes, p.dataStart, FileOrder(ts, indices)[j])
    {
      ShardSizeAt(ts, sizes, indices, j);
      WrittenTensor(data, p, indices, w[j]);
    }
    BodiesAgree(data, ts, sizes, p.dataStart, FileOrder(ts, indices), file, q.tensors, sizes', q.dataStart, w,
                |indices|);
    WholeBody(file, q);
  }

  lemma WholeBody(file: seq<byte>, q: Parsed)
    requires LastFits(q.tensors, q.dataStart, |file|)
    ensures |DataSizes(q.tensors, q.dataStart, |file|).value| == |q.tensors|
    ensures RegionsInside(file, q.tensors, DataSizes(q.tensors, q.dataStart, |file|).value, q.dataStart)
    ensures Indexes(WholeOrder(q.tensors), q.tensors)
    ensures BodyOf(file, q, Range(|q.tensors|))
         == Body(file, q.tensors, DataSizes(q.tensors, q.dataStart, |file|).value, q.dataStart, WholeOrder(q.tensors),
                 |q.tensors|)
  {
    hide DataSizes, RegionsInside, LastFits, FileOrder;
    SizesResult(q.tensors, q.dataStart, |file|);
    RegionsAreInside(file, q.tensors, q.dataStart);
    FileOrderIndexes(q.tensors, Range(|q.tensors|));
  }

  // Writing all tensors of a shard, in the shard's own order, gives the shard's own bytes.
  lemma RewriteShard(data: seq<byte>, p: Parsed, indices: seq<nat>)
    requires Splittable(data, p) && Selectable(p.tensors, indices) && p.tensors != []
    ensures var file := Written(data, p, indices);
            var q := LayoutOf(p.version, p.kvCount, RawMetadata(data, p), InfosOf(data, p, indices)); (
            && Sliceable(file, q) && LastFits(q.tensors, q.dataStart, |file|)
            && Written(file, q, Range(|q.tensors|)) == file)
  {
    hide Splittable, Selectable, Parse, TailSafe, LastFits, Aligned, Written, DataSizes, FileOrder, Readable,
         ShardInfos, EncodeFile, BodyOf, EncodeInfos, ShardSizes;
    SplittableMeans(data, p);
    SelectableMeans(p.tensors, indices);
    var file := Written(data, p, indices);
    var q := LayoutOf(p.version, p.kvCount, RawMetadata(data, p), InfosOf(data, p, indices));
    var all := Range(|q.tensors|);
    WrittenLayout(data, p, indices);
    LastFitsFrom(q.tensors, q.dataStart, |file|);
    AlignedReadable(p.tensors, p.dataStart, |data|, indices);
    RewrittenInfos(p.tensors, DataSizes(p.tensors, p.dataStart, |data|).value, indices);
    RewrittenBody(data, p, indices);
    WrittenIs(data, p, indices);
    WrittenIs(file, q, all);
  }

  // ---------------------------------------------------------------------------
  // Splitting a shard again
  // ---------------------------------------------------------------------------

  lemma ShardOrdered(ts: seq<TensorInfo>, from: nat, to: nat, tail: bool, infos: seq<TensorInfo>)
    requires from <= to <= LayerCount(ts)
    requires Indexes(Chosen(Groups(ts, LayerCount(ts)), from, to, tail), ts)
    requires SameButOffsets(ts, Chosen(Groups(ts, LayerCount(ts)), from, to, tail), infos)
    ensures LayerOrdered(infos, LayerCount(infos))
  {
    var n := LayerCount(ts);
    var indices := Chosen(Groups(ts, n), from, to, tail);
    ShardLayers(ts, indices, infos);
    hide LayerCount, GroupOf, Groups, Chosen;
    forall a, b | 0 <= a < b < |infos|
      ensures GroupOf(infos[a], n) <= GroupOf(infos[b], n)
    {
      ChosenGrouped(ts, n, from, to, tail, a, b);
      GroupByName(infos[a], ts[indices[a]], n);
      GroupByName(infos[b], ts[indices[b]], n);
    }
    FewerLayers(ts, n, infos);
  }

  // With room for every layer, the plan is one shard that lists everything.
  lemma OneShard(ts: seq<TensorInfo>, layersPerShard: u32)
    requires 0 < LayerCount(ts) <= layersPerShard && LayerOrdered(ts, LayerCount(ts))
    ensures CeilDiv(LayerCount(ts), layersPerShard) == 1
    ensures PlanOk(LayerCount(ts), layersPerShard)
    ensures PlannedList(ts, LayerCount(ts), layersPerShard, 0) == Range(|ts|)
  {
    var n := LayerCount(ts);
    hide LayerCount, Groups, LayerOrdered, Chosen;
    OneShardPlan(n, layersPerShard);
    hide PlanShard, CeilDiv, Covered;
    PlannedIsChosen(ts, n, layersPerShard, 0);
    OrderedSelection(ts, n);
  }

  lemma OneShardPlan(n: u32, layersPerShard: u32)
    requires 0 < n <= layersPerShard
    ensures CeilDiv(n, layersPerShard) == 1
    ensures PlanShard(n, layersPerShard, 0).Success? && PlanOk(n, layersPerShard)
    ensures Covered(n, layersPerShard, 0) == 0 && Covered(n, layersPerShard, 1) == n
  {
    CeilDivMeaning(n, layersPerShard);
    var q := CeilDiv(n, layersPerShard);
    if q > 1 {
      MulMonotone(2, q, layersPerShard);
      assert false;
    }
  }

  // Re-splitting is a fixed point: a written shard that holds tensors, split with room for all its
  // layers, yields one shard, and that shard is the same file.
  lemma SplitAgain(data: seq<byte>, p: Parsed, requested: Option<u32>, i: nat, again: u32)
    requires Splittable(data, p) && GoodRequest(p, requested)
    requires SplitBytes(data, requested).Success? && i < |SplitBytes(data, requested).value|
    requires var shard := Parse(SplitBytes(data, requested).value[i]);
             shard.Success? && 0 < LayerCount(shard.value.tensors) <= again
    ensures SplitBytes(SplitBytes(data, requested).value[i], Some(again))
         == Success([SplitBytes(data, requested).value[i]])
  {
    hide *;
    GoodRequestMeans(p, requested);
    SplittableMeans(data, p);
    SplitSucceeds(data, p, requested);
    var n := LayerCount(p.tensors);
    var k := LayersPerShard(requested, n);
    ShardFilesAt(data, p, n, k, CeilDiv(n, k), i);
    PlannedSelectable(p.tensors, k, i);
    var indices := PlannedList(p.tensors, n, k, i);
    PlannedFixedPoint(data, p, k, i, again);
  }

  lemma PlannedFixedPoint(data: seq<byte>, p: Parsed, layersPerShard: u32, i: nat, again: u32)
    requires Splittable(data, p) && 0 < LayerCount(p.tensors) < U32_LIMIT && p.tensors != []
    requires layersPerShard > 0 && PlanOk(LayerCount(p.tensors), layersPerShard)
    requires i < CeilDiv(LayerCount(p.tensors), layersPerShard)
    requires Sliceable(data, p) && LastFits(p.tensors, p.dataStart, |data|)
    requires var shard := Parse(Written(data, p, PlannedList(p.tensors, LayerCount(p.tensors), layersPerShard, i)));
             shard.Success? && 0 < LayerCount(shard.value.tensors) <= again
    ensures var file := Written(data, p, PlannedList(p.tensors, LayerCount(p.tensors), layersPerShard, i));
            SplitBytes(file, Some(again)) == Success([file])
  {
    hide Splittable, Selectable, Parse, TailSafe, LastFits, Aligned, Written, LayerCount, CeilDiv, PlanOk,
         PlannedList, InfosOf, LayerOrdered, ShardFiles;
    var n := LayerCount(p.tensors);
    var indices := PlannedList(p.tensors, n, layersPerShard, i);
    PlannedSelectable(p.tensors, layersPerShard, i);
    SelectableMeans(p.tensors, indices);
    var file := Written(data, p, indices);
    var q := LayoutOf(p.version, p.kvCount, RawMetadata(data, p), InfosOf(data, p, indices));
    WrittenParses(data, p, indices);
    RewriteShard(data, p, indices);
    PlannedOrdered(data, p, layersPerShard, i);
    OneShard(q.tensors, again);
    SplitOne(file, q, again);
  }

  lemma PlannedOrdered(data: seq<byte>, p: Parsed, layersPerShard: u32, i: nat)
    requires 0 < LayerCount(p.tensors) < U32_LIMIT && layersPerShard > 0
    requires PlanOk(LayerCount(p.tensors), layersPerShard) && i < CeilDiv(LayerCount(p.tensors), layersPerShard)
    requires LastFits(p.tensors, p.dataStart, |data|)
    ensures var infos := InfosOf(data, p, PlannedList(p.tensors, LayerCount(p.tensors), layersPerShard, i));
            LayerOrdered(infos, LayerCount(infos))
  {
    var n := LayerCount(p.tensors);
    assert PlanShard(n, layersPerShard, i).Success?;
    hide LastFits, LayerCount, CeilDiv, PlanOk, PlanShard, PlannedShard, Chosen, Groups, Covered, DataSizes,
         ShardInfos;
    SizesResult(p.tensors, p.dataStart, |data|);
    var indices := PlannedList(p.tensors, n, layersPerShard, i);
    ShardInfosSame(p.tensors, DataSizes(p.tensors, p.dataStart, |data|).value, indices);
    PlannedIsChosen(p.tensors, n, layersPerShard, i);
    ShardOrdered(p.tensors, Covered(n, layersPerShard, i), Covered(n, layersPerShard, i + 1),
                 i + 1 == CeilDiv(n, layersPerShard), InfosOf(data, p, indices));
  }

  lemma SplitOne(file: seq<byte>, q: Parsed, again: u32)
    requires Parse(file) == Success(q) && Sliceable(file, q) && LastFits(q.tensors, q.dataStart, |file|)
    requires q.infoStart == q.metadataEnd
    requires 0 < LayerCount(q.tensors) <= again
    requires PlanOk(LayerCount(q.tensors), again) && CeilDiv(LayerCount(q.tensors), again) == 1
    requires PlannedList(q.tensors, LayerCount(q.tensors), again, 0) == Range(|q.tensors|)
    requires Written(file, q, Range(|q.tensors|)) == file
    ensures SplitBytes(file, Some(again)) == Success([file])
  {
    hide Parse, LastFits, LayerCount, CeilDiv, PlanOk, PlannedList, Written, Metadata.StringFor;
    ArchitectureReads(file, q);
    assert ShardFiles(file, q, LayerCount(q.tensors), again, 0) == [];
    assert ShardFiles(file, q, LayerCount(q.tensors), again, 1) == [file];
  }
}
