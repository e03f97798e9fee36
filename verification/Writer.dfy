// Writing one shard: new offsets, tensor infos in the given order, data in file order.
module Writer {
  import opened Bytes
  import opened Parser
  import opened Sorting
  import opened Regions
  import opened Format

  // The output file: bytes are only ever appended.
  class OutFile {
    var contents: seq<byte>

    constructor ()
      ensures contents == []
    {
      contents := [];
    }

    method WriteAll(bytes: seq<byte>)
      modifies this
      ensures contents == old(contents) + bytes
    {
      contents := contents + bytes;
    }

    method StreamPosition() returns (pos: nat)
      ensures pos == |contents|
    {
      pos := |contents|;
    }
  }

  // ---------------------------------------------------------------------------
  // New offsets
  // ---------------------------------------------------------------------------

  // Where the k-th tensor of the order is announced to start: each end is rounded up to 32.
  function Cursor(sizes: seq<nat>, order: seq<nat>, k: nat): nat
    requires k <= |order| && Indexes(order, sizes)
  {
    if k == 0 then 0 else AlignUp(Cursor(sizes, order, k - 1) + sizes[order[k - 1]])
  }

  // The offsets table; a repeated index keeps its last entry.
  function NewOffsets(sizes: seq<nat>, order: seq<nat>, k: nat): (m: map<nat, nat>)
    requires k <= |order| && Indexes(order, sizes)
    ensures forall j :: 0 <= j < k ==> order[j] in m
  {
    if k == 0 then map[]
    else NewOffsets(sizes, order, k - 1)[order[k - 1] := Cursor(sizes, order, k - 1)]
  }

  lemma {:induction false} NewOffsetsAt(sizes: seq<nat>, order: seq<nat>, k: nat, j: nat)
    requires j < k <= |order| && Indexes(order, sizes) && Distinct(order)
    ensures NewOffsets(sizes, order, k)[order[j]] == Cursor(sizes, order, j)
    decreases k
  {
    hide Cursor;
    if j < k - 1 {
      NewOffsetsAt(sizes, order, k - 1, j);
    }
  }

  // ---------------------------------------------------------------------------
  // Shard contents
  // ---------------------------------------------------------------------------

  // The tensors a shard lists, with their new offsets.
  function ShardInfos(ts: seq<TensorInfo>, sizes: seq<nat>, indices: seq<nat>): (r: seq<TensorInfo>)
    requires |sizes| == |ts| && Indexes(indices, ts)
    ensures |r| == |indices|
  {
    FileOrderIndexes(ts, indices);
    seq(|indices|, k requires 0 <= k < |indices| && |sizes| == |ts| && Indexes(indices, ts)
                             && Indexes(FileOrder(ts, indices), sizes) => ShardInfo(ts, sizes, indices, k))
  }

  function ShardInfo(ts: seq<TensorInfo>, sizes: seq<nat>, indices: seq<nat>, k: nat): (t: TensorInfo)
    requires |sizes| == |ts| && Indexes(indices, ts) && k < |indices|
  {
    FileOrderIndexes(ts, indices);
    FileOrderHas(ts, indices, k);
    var order := FileOrder(ts, indices);
    ts[indices[k]].(offset := NewOffsets(sizes, order, |order|)[indices[k]])
  }

  lemma FileOrderIndexes(ts: seq<TensorInfo>, indices: seq<nat>)
    requires Indexes(indices, ts)
    ensures Indexes(FileOrder(ts, indices), ts)
  {
    FileOrderMeaning(ts, indices);
    var order := FileOrder(ts, indices);
    forall k | 0 <= k < |order| ensures order[k] < |ts| {
      SamePermutationMembers(order, indices, order[k]);
    }
  }

  lemma FileOrderHas(ts: seq<TensorInfo>, indices: seq<nat>, k: nat)
    requires k < |indices|
    ensures exists j :: 0 <= j < |indices| && FileOrder(ts, indices)[j] == indices[k]
  {
    FileOrderMeaning(ts, indices);
    SamePermutationMembers(indices, FileOrder(ts, indices), indices[k]);
  }

  // Every region named by the first k entries of the order lies in the file.
  predicate RegionsInside(data: seq<byte>, ts: seq<TensorInfo>, sizes: seq<nat>, dataStart: nat)
    requires |sizes| == |ts|
  {
    forall i :: 0 <= i < |ts| ==> dataStart + ts[i].offset + sizes[i] <= |data|
  }

  function Region(data: seq<byte>, ts: seq<TensorInfo>, sizes: seq<nat>, dataStart: nat, i: nat): (r: seq<byte>)
    requires |sizes| == |ts| && RegionsInside(data, ts, sizes, dataStart) && i < |ts|
    ensures |r| == sizes[i]
  {
    data[dataStart + ts[i].offset..dataStart + ts[i].offset + sizes[i]]
  }

  // The regions of the first k tensors of the order, back to back.
  function Body(data: seq<byte>, ts: seq<TensorInfo>, sizes: seq<nat>, dataStart: nat, order: seq<nat>,
                k: nat): (r: seq<byte>)
    requires |sizes| == |ts| && RegionsInside(data, ts, sizes, dataStart)
    requires k <= |order| && Indexes(order, ts)
    ensures |r| == SizeSum(sizes, order, k)
  {
    if k == 0 then []
    else Body(data, ts, sizes, dataStart, order, k - 1) + Region(data, ts, sizes, dataStart, order[k - 1])
  }

  function ShardBody(data: seq<byte>, ts: seq<TensorInfo>, sizes: seq<nat>, dataStart: nat,
                     indices: seq<nat>): seq<byte>
    requires |sizes| == |ts| && RegionsInside(data, ts, sizes, dataStart) && Indexes(indices, ts)
  {
    FileOrderIndexes(ts, indices);
    Body(data, ts, sizes, dataStart, FileOrder(ts, indices), |indices|)
  }

  function ShardFile(version: u32, kvCount: u64, raw: seq<byte>, data: seq<byte>, ts: seq<TensorInfo>,
                     sizes: seq<nat>, dataStart: nat, indices: seq<nat>): seq<byte>
    requires |sizes| == |ts| && RegionsInside(data, ts, sizes, dataStart) && Indexes(indices, ts)
  {
    EncodeFile(version, kvCount, raw, ShardInfos(ts, sizes, indices), ShardBody(data, ts, sizes, dataStart, indices))
  }

  lemma {:induction false} EncodeDimsSnoc(dims: seq<u64>, k: nat)
    requires k < |dims|
    ensures EncodeDims(dims[..k + 1]) == EncodeDims(dims[..k]) + LittleEndian(dims[k], 8)
    decreases k
  {
    var a, b := dims[..k], dims[..k + 1];
    if k == 0 {
      assert b[1..] == [];
      assert LittleEndian(dims[0], 8) + [] == [] + LittleEndian(dims[0], 8);
    } else {
      EncodeDimsSnoc(dims[1..], k - 1);
      assert a[1..] == dims[1..][..k - 1] && b[1..] == dims[1..][..k];
      assert EncodeDims(b) == LittleEndian(dims[0], 8) + EncodeDims(b[1..]);
    }
  }

  lemma {:induction false} EncodeInfosSnoc(ts: seq<TensorInfo>, k: nat)
    requires k < |ts|
    ensures EncodeInfos(ts[..k + 1]) == EncodeInfos(ts[..k]) + EncodeInfo(ts[k])
    decreases k
  {
    hide EncodeInfo;
    var a, b := ts[..k], ts[..k + 1];
    if k == 0 {
      assert b[1..] == [];
      assert EncodeInfo(ts[0]) + [] == [] + EncodeInfo(ts[0]);
    } else {
      EncodeInfosSnoc(ts[1..], k - 1);
      assert a[1..] == ts[1..][..k - 1] && b[1..] == ts[1..][..k];
      assert EncodeInfos(b) == EncodeInfo(ts[0]) + EncodeInfos(b[1..]);
    }
  }

  // Appending piece by piece, as the source does, gives the encoding of one tensor info.
  method WriteInfo(out: OutFile, t: TensorInfo)
    modifies out
    ensures out.contents == old(out.contents) + EncodeInfo(t)
  {
    ghost var start := out.contents;
    out.WriteAll(LittleEndian(|t.name|, 8));
    out.WriteAll(t.name);
    out.WriteAll(LittleEndian(t.nDims, 4));
    ghost var beforeDims := out.contents;
    for k := 0 to |t.dims|
      invariant out.contents == beforeDims + EncodeDims(t.dims[..k])
    {
      EncodeDimsSnoc(t.dims, k);
      Associative(beforeDims, EncodeDims(t.dims[..k]), LittleEndian(t.dims[k], 8));
      out.WriteAll(LittleEndian(t.dims[k], 8));
    }
    assert t.dims[..|t.dims|] == t.dims;
    out.WriteAll(LittleEndian(t.ggmlType, 4));
    out.WriteAll(LittleEndian(t.offset, 8));
    InfoPieces(start, t);
  }

  lemma InfoPieces(start: seq<byte>, t: TensorInfo)
    ensures start + LittleEndian(|t.name|, 8) + t.name + LittleEndian(t.nDims, 4) + EncodeDims(t.dims)
            + LittleEndian(t.ggmlType, 4) + LittleEndian(t.offset, 8)
         == start + EncodeInfo(t)
  {
    FivePieces(start, LittleEndian(|t.name|, 8), t.name, LittleEndian(t.nDims, 4), EncodeDims(t.dims),
               LittleEndian(t.ggmlType, 4), LittleEndian(t.offset, 8));
  }

  lemma FivePieces(s: seq<byte>, a: seq<byte>, b: seq<byte>, c: seq<byte>, d: seq<byte>, e: seq<byte>, f: seq<byte>)
    ensures s + a + b + c + d + e + f == s + (a + (b + (c + (d + (e + f)))))
  {
  }

  method WriteHeader(out: OutFile, version: u32, tensorCount: nat, kvCount: u64)
    modifies out
    ensures out.contents == old(out.contents) + EncodeHeader(version, tensorCount, kvCount)
  {
    ghost var start := out.contents;
    out.WriteAll(LittleEndian(MAGIC, 4));
    out.WriteAll(LittleEndian(version, 4));
    out.WriteAll(LittleEndian(tensorCount, 8));
    out.WriteAll(LittleEndian(kvCount, 8));
    FivePieces(start, LittleEndian(MAGIC, 4), LittleEndian(version, 4), LittleEndian(tensorCount, 8),
               LittleEndian(kvCount, 8), [], []);
  }

  method ComputeNewOffsets(sizes: seq<nat>, sorted: seq<nat>) returns (newOffsets: map<nat, nat>)
    requires Indexes(sorted, sizes)
    ensures newOffsets == NewOffsets(sizes, sorted, |sorted|)
  {
    newOffsets := map[];
    var cur := 0;
    for k := 0 to |sorted|
      invariant cur == Cursor(sizes, sorted, k)
      invariant newOffsets == NewOffsets(sizes, sorted, k)
    {
      newOffsets := newOffsets[sorted[k] := cur];
      cur := AlignUp(cur + sizes[sorted[k]]);
    }
  }

  method WriteInfos(out: OutFile, tensorIndices: seq<nat>, allTensors: seq<TensorInfo>, newOffsets: map<nat, nat>,
                    ghost infos: seq<TensorInfo>)
    requires |infos| == |tensorIndices| && Indexes(tensorIndices, allTensors)
    requires forall k :: 0 <= k < |infos| ==>
               && tensorIndices[k] in newOffsets
               && infos[k] == allTensors[tensorIndices[k]].(offset := newOffsets[tensorIndices[k]])
    modifies out
    ensures out.contents == old(out.contents) + EncodeInfos(infos)
  {
    assert infos[..0] == [];
    for k := 0 to |tensorIndices|
      invariant out.contents == old(out.contents) + EncodeInfos(infos[..k])
    {
      hide EncodeInfo, EncodeInfos;
      var idx := tensorIndices[k];
      var t := allTensors[idx].(offset := newOffsets[idx]);
      EncodeInfosSnoc(infos, k);
      Associative(old(out.contents), EncodeInfos(infos[..k]), EncodeInfo(infos[k]));
      WriteInfo(out, t);
    }
    assert infos[..|tensorIndices|] == infos;
  }

  method WritePadding(out: OutFile)
    modifies out
    ensures out.contents == old(out.contents) + Padding(|old(out.contents)|)
  {
    var pos := out.StreamPosition();
    AlignUpMeaning(pos);
    var pad := AlignUp(pos) - pos;
    if pad > 0 {
      out.WriteAll(Zeros(pad));
    }
  }

  method WriteBody(out: OutFile, sorted: seq<nat>, allTensors: seq<TensorInfo>, dataSizes: seq<nat>, mmap: seq<byte>,
                   originalDataStart: nat)
    requires |dataSizes| == |allTensors| && RegionsInside(mmap, allTensors, dataSizes, originalDataStart)
    requires Indexes(sorted, allTensors)
    modifies out
    ensures out.contents
         == old(out.contents) + Body(mmap, allTensors, dataSizes, originalDataStart, sorted, |sorted|)
  {
    for k := 0 to |sorted|
      invariant out.contents
             == old(out.contents) + Body(mmap, allTensors, dataSizes, originalDataStart, sorted, k)
    {
      var t := allTensors[sorted[k]];
      var start := originalDataStart + t.offset;
      var size := dataSizes[sorted[k]];
      Associative(old(out.contents), Body(mmap, allTensors, dataSizes, originalDataStart, sorted, k),
                  mmap[start..start + size]);
      if size > 0 {
        out.WriteAll(mmap[start..start + size]);
      } else {
        assert out.contents == out.contents + mmap[start..start + size];
      }
    }
  }

  // write_shard, onto the empty file that `File::create` returns.
  method WriteShard(out: OutFile, version: u32, kvCount: u64, tensorIndices: seq<nat>, allTensors: seq<TensorInfo>,
                    dataSizes: seq<nat>, rawMetadata: seq<byte>, mmap: seq<byte>, originalDataStart: nat)
    requires |dataSizes| == |allTensors| && RegionsInside(mmap, allTensors, dataSizes, originalDataStart)
    requires Indexes(tensorIndices, allTensors)
    requires out.contents == []
    modifies out
    ensures out.contents
         == ShardFile(version, kvCount, rawMetadata, mmap, allTensors, dataSizes, originalDataStart, tensorIndices)
  {
    var sorted := FileOrder(allTensors, tensorIndices);
    FileOrderIndexes(allTensors, tensorIndices);
    var newOffsets := ComputeNewOffsets(dataSizes, sorted);
    ghost var infos := ShardInfos(allTensors, dataSizes, tensorIndices);
    forall k | 0 <= k < |tensorIndices|
      ensures tensorIndices[k] in newOffsets
      ensures infos[k] == allTensors[tensorIndices[k]].(offset := newOffsets[tensorIndices[k]])
    {
      FileOrderHas(allTensors, tensorIndices, k);
    }
    hide FileOrder, NewOffsets, EncodeHeader, EncodeInfos, ShardInfos, RegionsInside, Body, Padding;

    WriteHeader(out, version, |tensorIndices|, kvCount);
    out.WriteAll(rawMetadata);
    WriteInfos(out, tensorIndices, allTensors, newOffsets, infos);
    ShardFileFront(version, kvCount, rawMetadata, infos);
    WritePadding(out);
    WriteBody(out, sorted, allTensors, dataSizes, mmap, originalDataStart);
    Associative(FrontMatter(version, kvCount, rawMetadata, infos),
                Padding(|FrontMatter(version, kvCount, rawMetadata, infos)|),
                Body(mmap, allTensors, dataSizes, originalDataStart, sorted, |sorted|));
  }

  lemma ShardFileFront(version: u32, kvCount: u64, raw: seq<byte>, infos: seq<TensorInfo>)
    ensures [] + EncodeHeader(version, |infos|, kvCount) + raw + EncodeInfos(infos)
         == FrontMatter(version, kvCount, raw, infos)
  {
    hide EncodeHeader, EncodeInfos;
    NothingBefore(EncodeHeader(version, |infos|, kvCount));
    Associative(EncodeHeader(version, |infos|, kvCount), raw, EncodeInfos(infos));
  }

  lemma NothingBefore(s: seq<byte>)
    ensures [] + s == s
  {
  }
}
