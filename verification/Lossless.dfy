// Splitting loses nothing, duplicates nothing and changes no byte of any tensor.
module Lossless {
  import opened Wrappers
  import opened Bytes
  import opened Reader
  import opened Parser
  import opened Sorting
  import opened Names
  import opened Layers
  import opened Selection
  import opened Regions
  import opened Format
  import opened Writer
  import opened Placement
  import opened Split
  import Metadata

  // The first name of a layer, if too long for the window to accept, has no zero byte.
  ghost predicate LayersFindable(ts: seq<TensorInfo>) {
    forall i: nat :: OpensLayer(ts, i) ==> |ts[i].name| < 256 || (|ts[i].name| < U32_LIMIT && 0 !in ts[i].name)
  }

  // What a user can check of a source before splitting it.
  ghost predicate Splittable(data: seq<byte>, p: Parsed) {
    && |data| < SLICE_LIMIT
    && Parse(data) == Success(p)
    && Sliceable(data, p)
    // the window stopped where the metadata ends, and the metadata tail holds no decoy name
    && p.infoStart == p.metadataEnd
    && TailSafe(RawMetadata(data, p))
    // the layout the format demands
    && Aligned(p.tensors)
    && LastFits(p.tensors, p.dataStart, |data|)
    && LayersFindable(p.tensors)
  }

  lemma SplittableMeans(data: seq<byte>, p: Parsed)
    requires Splittable(data, p)
    ensures |data| < SLICE_LIMIT && Parse(data) == Success(p) && Sliceable(data, p)
    ensures p.infoStart == p.metadataEnd && TailSafe(RawMetadata(data, p))
    ensures Aligned(p.tensors) && LastFits(p.tensors, p.dataStart, |data|)
  {
    hide Parse, TailSafe, Aligned, LastFits, LayerId;
  }

  // ---------------------------------------------------------------------------
  // A shard is no larger than its source
  // ---------------------------------------------------------------------------

  lemma {:induction false} SumWithin(sizes: seq<nat>, a: seq<nat>, b: seq<nat>)
    requires Indexes(a, sizes) && Indexes(b, sizes)
    requires multiset(a) <= multiset(b)
    ensures SizeSum(sizes, a, |a|) <= SizeSum(sizes, b, |b|)
    decreases |b|
  {
    hide *;
    if a == [] {
      SumNonNegative(sizes, b);
    } else {
      var j := CommonPlace(a, b);
      var restA := DropAt(sizes, a, |a| - 1);
      var restB := DropAt(sizes, b, j);
      SumWithin(sizes, restA, restB);
    }
  }

  lemma CommonPlace(a: seq<nat>, b: seq<nat>) returns (j: nat)
    requires multiset(a) <= multiset(b) && a != []
    ensures j < |b| && b[j] == a[|a| - 1]
  {
    var x := a[|a| - 1];
    assert x in multiset(a);
    assert x in multiset(b);
    j :| 0 <= j < |b| && b[j] == x;
  }

  lemma DropAt(sizes: seq<nat>, b: seq<nat>, j: nat) returns (rest: seq<nat>)
    requires Indexes(b, sizes) && j < |b|
    ensures Indexes(rest, sizes) && |rest| == |b| - 1 && b[j] < |sizes|
    ensures multiset(rest) == multiset(b) - multiset{b[j]}
    ensures SizeSum(sizes, b, |b|) == sizes[b[j]] + SizeSum(sizes, rest, |rest|)
  {
    rest := Without(b, j);
    SumWithout(sizes, b, j);
  }

  lemma SumNonNegative(sizes: seq<nat>, b: seq<nat>)
    requires Indexes(b, sizes)
    ensures SizeSum(sizes, [], 0) == 0 <= SizeSum(sizes, b, |b|)
  {
  }

  lemma {:induction false} SumPrefix(sizes: seq<nat>, a: seq<nat>, b: seq<nat>, k: nat)
    requires Indexes(a, sizes) && Indexes(b, sizes)
    requires k <= |a| && k <= |b| && forall i :: 0 <= i < k ==> a[i] == b[i]
    ensures SizeSum(sizes, a, k) == SizeSum(sizes, b, k)
    decreases k
  {
    if k > 0 {
      SumPrefix(sizes, a, b, k - 1);
    }
  }

  lemma {:induction false} SumWithout(sizes: seq<nat>, b: seq<nat>, j: nat)
    requires Indexes(b, sizes) && j < |b|
    ensures Indexes(b[..j] + b[j + 1..], sizes)
    ensures SizeSum(sizes, b, |b|) == sizes[b[j]] + SizeSum(sizes, b[..j] + b[j + 1..], |b| - 1)
    decreases |b|
  {
    var rest := b[..j] + b[j + 1..];
    if j == |b| - 1 {
      SumPrefix(sizes, b, rest, |b| - 1);
    } else {
      var init := b[..|b| - 1];
      var restInit := init[..j] + init[j + 1..];
      SumWithout(sizes, init, j);
      SumPrefix(sizes, b, init, |b| - 1);
      SumPrefix(sizes, rest, restInit, |b| - 2);
    }
  }

  function InfoLengths(ts: seq<TensorInfo>): (r: seq<nat>)
    ensures |r| == |ts| && forall i :: 0 <= i < |ts| ==> r[i] == |EncodeInfo(ts[i])|
  {
    seq(|ts|, i requires 0 <= i < |ts| => |EncodeInfo(ts[i])|)
  }

  // The listed tensors, except perhaps for their offsets.
  ghost predicate SameButOffsets(ts: seq<TensorInfo>, indices: seq<nat>, infos: seq<TensorInfo>)
    requires Indexes(indices, ts)
  {
    && |infos| == |indices|
    && forall i :: 0 <= i < |infos| ==> infos[i] == ts[indices[i]].(offset := infos[i].offset)
  }

  lemma LengthGrows(ts: seq<TensorInfo>, indices: seq<nat>, infos: seq<TensorInfo>, k: nat)
    requires Indexes(indices, ts) && SameButOffsets(ts, indices, infos) && k < |infos|
    requires |EncodeInfos(infos[..k])| == SizeSum(InfoLengths(ts), indices, k)
    ensures |EncodeInfos(infos[..k + 1])| == SizeSum(InfoLengths(ts), indices, k + 1)
  {
    assert infos[k] == ts[indices[k]].(offset := infos[k].offset);
    hide EncodeInfo, EncodeInfos, SameButOffsets;
    EncodeInfosSnoc(infos, k);
    LengthIgnoresOffset(ts[indices[k]], infos[k].offset);
  }

  lemma {:induction false} InfosLengthTo(ts: seq<TensorInfo>, indices: seq<nat>, infos: seq<TensorInfo>, k: nat)
    requires Indexes(indices, ts) && SameButOffsets(ts, indices, infos) && k <= |infos|
    ensures |EncodeInfos(infos[..k])| == SizeSum(InfoLengths(ts), indices, k)
    decreases k
  {
    hide EncodeInfo, InfoLengths, SameButOffsets;
    if k == 0 {
      assert infos[..0] == [];
    } else {
      InfosLengthTo(ts, indices, infos, k - 1);
      LengthGrows(ts, indices, infos, k - 1);
    }
  }

  lemma InfosLength(ts: seq<TensorInfo>, indices: seq<nat>, infos: seq<TensorInfo>)
    requires Indexes(indices, ts) && SameButOffsets(ts, indices, infos)
    ensures |EncodeInfos(infos)| == SizeSum(InfoLengths(ts), indices, |indices|)
  {
    hide EncodeInfos, EncodeInfo, SizeSum;
    InfosLengthTo(ts, indices, infos, |infos|);
    assert infos[..|infos|] == infos;
  }

  lemma LengthIgnoresOffset(t: TensorInfo, offset: nat)
    ensures |EncodeInfo(t.(offset := offset))| == |EncodeInfo(t)|
  {
  }

  lemma ShardInfosSame(ts: seq<TensorInfo>, sizes: seq<nat>, indices: seq<nat>)
    requires |sizes| == |ts| && Indexes(indices, ts)
    ensures SameButOffsets(ts, indices, ShardInfos(ts, sizes, indices))
  {
    hide FileOrder, NewOffsets;
    forall k | 0 <= k < |indices|
      ensures var t := ShardInfos(ts, sizes, indices)[k]; t == ts[indices[k]].(offset := t.offset)
    {
      assert ShardInfos(ts, sizes, indices)[k] == ShardInfo(ts, sizes, indices, k);
    }
  }

  lemma ShardInfosLength(ts: seq<TensorInfo>, sizes: seq<nat>, indices: seq<nat>)
    requires |sizes| == |ts| && Indexes(indices, ts) && multiset(indices) <= multiset(Range(|ts|))
    ensures |EncodeInfos(ShardInfos(ts, sizes, indices))| <= |EncodeInfos(ts)|
  {
    ShardInfosSame(ts, sizes, indices);
    InfosLength(ts, indices, ShardInfos(ts, sizes, indices));
    InfosLength(ts, Range(|ts|), ts);
    SumWithin(InfoLengths(ts), indices, Range(|ts|));
  }

  lemma BodyLength(ts: seq<TensorInfo>, dataStart: nat, fileSize: nat, indices: seq<nat>)
    requires LastFits(ts, dataStart, fileSize) && dataStart <= fileSize
    requires Indexes(indices, ts) && multiset(indices) <= multiset(Range(|ts|))
    ensures Indexes(FileOrder(ts, indices), ts)
    ensures SizeSum(DataSizes(ts, dataStart, fileSize).value, FileOrder(ts, indices), |indices|) <= fileSize - dataStart
  {
    FileOrderIndexes(ts, indices);
    FileOrderMeaning(ts, indices);
    SizesResult(ts, dataStart, fileSize);
    hide FileOrder, DataSizes, WholeOrder;
    WholeOrderMeaning(ts);
    if ts != [] {
      SizesConserve(ts, dataStart, fileSize);
    }
    SumWithin(DataSizes(ts, dataStart, fileSize).value, FileOrder(ts, indices), WholeOrder(ts));
  }

  lemma AlignUpMonotone(a: nat, b: nat)
    requires a <= b
    ensures AlignUp(a) <= AlignUp(b)
  {
  }

  // ---------------------------------------------------------------------------
  // A written shard parses back
  // ---------------------------------------------------------------------------

  // A selection as the plan makes them: existing tensors, none twice, the first of a layer
  // in front.
  ghost predicate Selectable(ts: seq<TensorInfo>, indices: seq<nat>) {
    && Indexes(indices, ts)
    && Distinct(indices)
    && multiset(indices) <= multiset(Range(|ts|))
    && (indices != [] ==> OpensLayer(ts, indices[0]))
  }

  lemma SelectableMeans(ts: seq<TensorInfo>, indices: seq<nat>)
    requires Selectable(ts, indices)
    ensures Indexes(indices, ts) && Distinct(indices)
    ensures multiset(indices) <= multiset(Range(|ts|))
    ensures indices != [] ==> LayerId(ts[indices[0]].name).Some?
  {
    hide LayerId;
  }

  // The window can cope with the first name of a shard.
  lemma FirstNameFindable(data: seq<byte>, p: Parsed, indices: seq<nat>)
    requires Splittable(data, p) && Selectable(p.tensors, indices) && indices != []
    ensures Findable(p.tensors[indices[0]].name)
  {
    hide Parse, TailSafe, Aligned, LastFits, PlausibleName, LayerId;
    LayerNamePlausible(p.tensors[indices[0]].name);
  }

  ghost function InfosOf(data: seq<byte>, p: Parsed, indices: seq<nat>): (infos: seq<TensorInfo>)
    requires LastFits(p.tensors, p.dataStart, |data|) && Indexes(indices, p.tensors)
    ensures |infos| == |indices|
  {
    ShardInfos(p.tensors, DataSizes(p.tensors, p.dataStart, |data|).value, indices)
  }

  ghost function BodyOf(data: seq<byte>, p: Parsed, indices: seq<nat>): seq<byte>
    requires LastFits(p.tensors, p.dataStart, |data|) && Indexes(indices, p.tensors)
  {
    RegionsAreInside(data, p.tensors, p.dataStart);
    ShardBody(data, p.tensors, DataSizes(p.tensors, p.dataStart, |data|).value, p.dataStart, indices)
  }

  lemma WrittenIs(data: seq<byte>, p: Parsed, indices: seq<nat>)
    requires Sliceable(data, p) && LastFits(p.tensors, p.dataStart, |data|) && Indexes(indices, p.tensors)
    ensures Written(data, p, indices)
         == EncodeFile(p.version, p.kvCount, RawMetadata(data, p), InfosOf(data, p, indices), BodyOf(data, p, indices))
    ensures Indexes(FileOrder(p.tensors, indices), p.tensors)
    ensures |BodyOf(data, p, indices)|
         == SizeSum(DataSizes(p.tensors, p.dataStart, |data|).value, FileOrder(p.tensors, indices), |indices|)
  {
    FileOrderIndexes(p.tensors, indices);
    hide EncodeFile, FileOrder, RegionsInside, DataSizes;
  }

  // What parsing says of the source.
  lemma SourceLayout(data: seq<byte>, p: Parsed)
    requires Parse(data) == Success(p) && Sliceable(data, p)
    ensures Metadata.PairsEnd(data, HEADER_SIZE, p.kvCount) == Success(p.metadataEnd)
    ensures At(data, p.infoStart, EncodeInfos(p.tensors))
    ensures p.infoEnd == p.infoStart + |EncodeInfos(p.tensors)|
    ensures p.dataStart == AlignUp(p.infoEnd)
    ensures forall i :: 0 <= i < |p.tensors| ==> WellFormed(p.tensors[i])
    ensures |p.tensors| < U64_LIMIT
  {
    hide InfosAt, InfoStart, WellFormed, Metadata.PairsEnd, EncodeInfos;
    InfosAtIsEncoding(data, p.infoStart, Decode64(data[8..16]));
  }

  lemma FitsMeansStartInside(ts: seq<TensorInfo>, dataStart: nat, fileSize: nat)
    requires LastFits(ts, dataStart, fileSize) && ts != []
    ensures dataStart <= fileSize
  {
  }

  lemma WrittenFits(data: seq<byte>, p: Parsed, indices: seq<nat>)
    requires Splittable(data, p) && Selectable(p.tensors, indices) && p.tensors != []
    ensures |Written(data, p, indices)| <= |data|
    ensures |BodyOf(data, p, indices)| <= |data|
  {
    hide Splittable, Selectable, Parse, TailSafe, LastFits, Aligned, ShardInfos, DataSizes, At, EncodeFile,
         EncodeInfos, FileOrder, BodyOf, SizeSum, Written, AlignUp, Padding, EncodeHeader;
    SplittableMeans(data, p);
    SelectableMeans(p.tensors, indices);
    FitsMeansStartInside(p.tensors, p.dataStart, |data|);
    SourceLayout(data, p);
    WrittenIs(data, p, indices);
    SizesResult(p.tensors, p.dataStart, |data|);
    ShardInfosLength(p.tensors, DataSizes(p.tensors, p.dataStart, |data|).value, indices);
    BodyLength(p.tensors, p.dataStart, |data|, indices);
    var raw := RawMetadata(data, p);
    var infos := InfosOf(data, p, indices);
    FileLayout(p.version, p.kvCount, raw, infos, BodyOf(data, p, indices));
    AlignUpMonotone(HEADER_SIZE + |raw| + |EncodeInfos(infos)|, p.infoEnd);
  }

  // The metadata of the shard skips to the same place as that of the source.
  lemma WrittenMetadata(data: seq<byte>, p: Parsed, indices: seq<nat>)
    requires Parse(data) == Success(p) && Sliceable(data, p) && p.infoStart == p.metadataEnd
    requires LastFits(p.tensors, p.dataStart, |data|) && Indexes(indices, p.tensors)
    ensures Metadata.PairsEnd(Written(data, p, indices), HEADER_SIZE, p.kvCount) == Success(p.infoStart)
    ensures At(Written(data, p, indices), HEADER_SIZE, RawMetadata(data, p))
  {
    var file := Written(data, p, indices);
    var raw := RawMetadata(data, p);
    hide Parse, LastFits, BodyOf, InfosOf, EncodeFile, EncodeHeader, Written, Metadata.PairsEnd;
    SourceLayout(data, p);
    WrittenIs(data, p, indices);
    FileLayout(p.version, p.kvCount, raw, InfosOf(data, p, indices), BodyOf(data, p, indices));
    SameAt(data, file, HEADER_SIZE, raw);
    Metadata.PairsEndAgree(data, file, HEADER_SIZE, p.kvCount, p.infoStart);
  }

  lemma SameAt(a: seq<byte>, b: seq<byte>, off: nat, s: seq<byte>)
    requires At(a, off, s) && At(b, off, s)
    ensures Agree(a, b, off, off + |s|)
  {
    forall i | off <= i < off + |s|
      ensures a[i] == b[i]
    {
      assert a[i] == a[off..off + |s|][i - off] == s[i - off];
      assert b[i] == b[off..off + |s|][i - off] == s[i - off];
    }
  }

  lemma {:induction false} SumMonotone(sizes: seq<nat>, order: seq<nat>, j: nat, k: nat)
    requires j <= k <= |order| && Indexes(order, sizes)
    ensures SizeSum(sizes, order, j) <= SizeSum(sizes, order, k)
    decreases k
  {
    if j < k {
      SumMonotone(sizes, order, j, k - 1);
    }
  }

  lemma ReadableMeans(ts: seq<TensorInfo>, sizes: seq<nat>, indices: seq<nat>)
    requires Readable(ts, sizes, indices)
    ensures Indexes(FileOrder(ts, indices), sizes) && UnpaddedOrder(sizes, FileOrder(ts, indices))
  {
    hide FileOrder;
  }

  // New offsets stay within the data the shard holds, so they fit in 64 bits.
  lemma WrittenInfosWellFormed(data: seq<byte>, p: Parsed, indices: seq<nat>, k: nat)
    requires Splittable(data, p) && Selectable(p.tensors, indices) && k < |indices|
    ensures WellFormed(InfosOf(data, p, indices)[k])
  {
    hide Splittable, Selectable, Parse, TailSafe, LastFits, Aligned, Written, DataSizes, FileOrder, Readable, SizeSum,
         Cursor, ValidUtf8, ShardInfos, BodyOf;
    var ts := p.tensors;
    SplittableMeans(data, p);
    SelectableMeans(ts, indices);
    SizesResult(ts, p.dataStart, |data|);
    var sizes := DataSizes(ts, p.dataStart, |data|).value;
    var order := FileOrder(ts, indices);
    SourceLayout(data, p);
    WrittenIs(data, p, indices);
    WrittenFits(data, p, indices);
    AlignedReadable(ts, p.dataStart, |data|, indices);
    ReadableMeans(ts, sizes, indices);
    var j := PlaceOf(ts, indices, k);
    InfoOffset(ts, sizes, indices, k, j);
    UnpaddedCursor(sizes, order, j);
    SumMonotone(sizes, order, j, |order|);
    assert WellFormed(ts[indices[k]]);
  }

  lemma LayerNamePlausible(nm: seq<byte>)
    requires LayerId(nm).Some?
    ensures |nm| >= 4 && PlausibleName(nm)
  {
    assert BLK <= nm;
    assert nm[3] == BLK[3];
    DotIsPlausible(nm, 3);
  }

  // A tensor info with a plausible name of 1 to 255 bytes is a candidate at its own position.
  lemma InfoIsCandidate(data: seq<byte>, off: nat, t: TensorInfo)
    requires At(data, off, EncodeInfo(t)) && 0 < |t.name| < 256 && PlausibleName(t.name)
    ensures off < |data| && data[off] > 0 && Candidate(data, off)
  {
    hide PlausibleName;
    var tail := LittleEndian(t.nDims, 4) + (EncodeDims(t.dims) + EncodeTail(t));
    AtSplit(data, off, LittleEndian(|t.name|, 8), t.name + tail);
    AtSplit(data, off + 8, t.name, tail);
    Decode64Encode(|t.name|);
    assert data[off] == LittleEndian(|t.name|, 8)[0];
  }

  lemma NameAtInfo(data: seq<byte>, off: nat, t: TensorInfo)
    requires At(data, off, EncodeInfo(t))
    ensures At(data, off, LittleEndian(|t.name|, 8) + t.name)
  {
    hide At, LittleEndian, EncodeDims, EncodeTail;
    var length, tail := LittleEndian(|t.name|, 8), LittleEndian(t.nDims, 4) + (EncodeDims(t.dims) + EncodeTail(t));
    Associative(length, t.name, tail);
    AtSplit(data, off, length + t.name, tail);
  }

  // The window stops at a tensor info with such a name right behind the metadata.
  lemma WindowStopsAtInfo(data: seq<byte>, raw: seq<byte>, t: TensorInfo)
    requires |data| < SLICE_LIMIT && At(data, HEADER_SIZE, raw) && TailSafe(raw)
    requires At(data, HEADER_SIZE + |raw|, EncodeInfo(t)) && Findable(t.name)
    ensures InfoStart(data, HEADER_SIZE + |raw|) == Success(HEADER_SIZE + |raw|)
  {
    hide PlausibleName, TailSafe, At, Candidate, InfoStart, LittleEndian, EncodeDims, EncodeTail;
    if |t.name| < 256 {
      InfoIsCandidate(data, HEADER_SIZE + |raw|, t);
      WindowStopsAtFirstName(data, raw);
    } else {
      NameAtInfo(data, HEADER_SIZE + |raw|, t);
      WindowStopsAtLongName(data, raw, t.name);
    }
  }

  lemma EncodedFirst(ts: seq<TensorInfo>)
    requires ts != []
    ensures EncodeInfos(ts) == EncodeInfo(ts[0]) + EncodeInfos(ts[1..])
  {
    hide EncodeInfo;
  }

  // The window finds the shard's first tensor info, whichever tensors it holds.
  lemma WrittenWindow(data: seq<byte>, p: Parsed, indices: seq<nat>)
    requires Splittable(data, p) && Selectable(p.tensors, indices) && indices != []
    ensures InfoStart(Written(data, p, indices), p.infoStart) == Success(p.infoStart)
  {
    hide Splittable, Selectable, Parse, TailSafe, LastFits, BodyOf, InfosOf, EncodeFile, EncodeHeader, Written, At,
         LayerId, PlausibleName, EncodeInfo, EncodeInfos, Candidate, InfoStart, DataSizes, ShardInfos;
    SplittableMeans(data, p);
    SelectableMeans(p.tensors, indices);
    var file := Written(data, p, indices);
    var raw := RawMetadata(data, p);
    var infos := InfosOf(data, p, indices);
    WrittenFits(data, p, indices);
    WrittenIs(data, p, indices);
    FirstInfo(data, p, indices);
    FirstNameFindable(data, p, indices);
    FileLayout(p.version, p.kvCount, raw, infos, BodyOf(data, p, indices));
    EncodedFirst(infos);
    AtSplit(file, p.infoStart, EncodeInfo(infos[0]), EncodeInfos(infos[1..]));
    WindowStopsAtInfo(file, raw, infos[0]);
  }

  lemma FirstInfo(data: seq<byte>, p: Parsed, indices: seq<nat>)
    requires LastFits(p.tensors, p.dataStart, |data|) && Indexes(indices, p.tensors) && indices != []
    ensures InfosOf(data, p, indices)[0].name == p.tensors[indices[0]].name
  {
    SizesResult(p.tensors, p.dataStart, |data|);
    ShardInfosSame(p.tensors, DataSizes(p.tensors, p.dataStart, |data|).value, indices);
  }

  lemma EmptySelection(ts: seq<TensorInfo>)
    ensures Selectable(ts, [])
  {
  }

  // A shard without tensors, as a gap in the layer numbers produces, is all padding after the metadata.
  lemma EmptyWindow(data: seq<byte>, p: Parsed)
    requires Splittable(data, p) && p.tensors != []
    ensures InfoStart(Written(data, p, []), p.infoStart) == Success(p.infoStart)
  {
    hide Splittable, Selectable, Parse, TailSafe, LastFits, EncodeHeader, Written, InfoStart, DataSizes, ShardInfos,
         EncodeFile;
    SplittableMeans(data, p);
    EmptySelection(p.tensors);
    var file := Written(data, p, []);
    var raw := RawMetadata(data, p);
    WrittenFits(data, p, []);
    WrittenIs(data, p, []);
    FileLayout(p.version, p.kvCount, raw, [], []);
    assert EncodeInfos([]) == [];
    PaddingAtEnd(file, p.infoStart);
    WindowStopsAtPadding(file, raw);
  }

  lemma PaddingAtEnd(file: seq<byte>, off: nat)
    requires At(file, off, Padding(off)) && |file| == AlignUp(off)
    ensures forall i :: off <= i < |file| ==> file[i] == 0
  {
    AlignUpMeaning(off);
    forall i | off <= i < |file|
      ensures file[i] == 0
    {
      assert file[off..|file|][i - off] == Padding(off)[i - off];
    }
  }

  // Parsing a written shard gives the version, pair count and metadata of the source and the
  // listed tensors, in the listed order.
  lemma WrittenParses(data: seq<byte>, p: Parsed, indices: seq<nat>)
    requires Splittable(data, p) && Selectable(p.tensors, indices) && p.tensors != []
    ensures Parse(Written(data, p, indices))
         == Success(LayoutOf(p.version, p.kvCount, RawMetadata(data, p), InfosOf(data, p, indices)))
  {
    hide Splittable, Selectable, Parse, TailSafe, LastFits, BodyOf, InfosOf, EncodeFile, Written, InfoStart,
         WellFormed, LayoutOf, Metadata.PairsEnd;
    SplittableMeans(data, p);
    SelectableMeans(p.tensors, indices);
    var raw := RawMetadata(data, p);
    var infos := InfosOf(data, p, indices);
    if indices == [] {
      EmptyWindow(data, p);
    } else {
      WrittenWindow(data, p, indices);
    }
    WrittenFits(data, p, indices);
    WrittenIs(data, p, indices);
    WrittenMetadata(data, p, indices);
    SourceLayout(data, p);
    SelectionSize(p.tensors, indices);
    forall k | 0 <= k < |infos|
      ensures WellFormed(infos[k])
    {
      WrittenInfosWellFormed(data, p, indices, k);
    }
    ParseEncoded(p.version, p.kvCount, raw, infos, BodyOf(data, p, indices));
  }

  lemma SelectionSize(ts: seq<TensorInfo>, indices: seq<nat>)
    requires Selectable(ts, indices)
    ensures |indices| <= |ts|
  {
    var all, chosen := multiset(Range(|ts|)), multiset(indices);
    assert all == chosen + (all - chosen);
    assert |Range(|ts|)| == |all|;
  }

  // ---------------------------------------------------------------------------
  // The shard holds its tensors
  // ---------------------------------------------------------------------------

  // The data of tensor i, as a reader of the file delimits it.
  ghost function TensorBytes(data: seq<byte>, p: Parsed, i: nat): seq<byte>
    requires LastFits(p.tensors, p.dataStart, |data|) && i < |p.tensors|
  {
    RegionsAreInside(data, p.tensors, p.dataStart);
    Region(data, p.tensors, DataSizes(p.tensors, p.dataStart, |data|).value, p.dataStart, i)
  }

  // Tensor k of the shard is tensor i of the source: name, shape, type and every byte.
  ghost predicate SameTensor(data: seq<byte>, p: Parsed, i: nat, file: seq<byte>, q: Parsed, k: nat)
    requires LastFits(p.tensors, p.dataStart, |data|) && LastFits(q.tensors, q.dataStart, |file|)
    requires i < |p.tensors| && k < |q.tensors|
  {
    && q.tensors[k] == p.tensors[i].(offset := q.tensors[k].offset)
    && TensorBytes(file, q, k) == TensorBytes(data, p, i)
  }

  // The file parses, keeps the source's version and metadata, and lists exactly these tensors.
  ghost predicate HoldsExactly(data: seq<byte>, p: Parsed, file: seq<byte>, indices: seq<nat>)
    requires Sliceable(data, p) && LastFits(p.tensors, p.dataStart, |data|)
  {
    && Parse(file).Success?
    && var q := Parse(file).value;
    && q.version == p.version && q.kvCount == p.kvCount
    && Sliceable(file, q) && RawMetadata(file, q) == RawMetadata(data, p)
    && LastFits(q.tensors, q.dataStart, |file|)
    && |q.tensors| == |indices|
    && Indexes(indices, p.tensors)
    && forall k :: 0 <= k < |indices| ==> SameTensor(data, p, indices[k], file, q, k)
  }

  // What a reader computes for a written shard: the sizes of the source, and a data section
  // that is the body the writer put there.
  lemma WrittenLayout(data: seq<byte>, p: Parsed, indices: seq<nat>)
    requires Splittable(data, p) && Selectable(p.tensors, indices) && p.tensors != []
    ensures var file := Written(data, p, indices);
            var q := LayoutOf(p.version, p.kvCount, RawMetadata(data, p), InfosOf(data, p, indices)); (
            && DataSizes(p.tensors, p.dataStart, |data|).Success?
            && DataSizes(q.tensors, q.dataStart, |file|)
            == Success(ShardSizes(DataSizes(p.tensors, p.dataStart, |data|).value, indices))
            && At(file, q.dataStart, BodyOf(data, p, indices))
            && At(file, HEADER_SIZE, RawMetadata(data, p))
            && |file| == q.dataStart + |BodyOf(data, p, indices)|)
  {
    hide Splittable, Selectable, Parse, TailSafe, LastFits, Aligned, EncodeHeader, Written, DataSizes, FileOrder,
         EncodeFile, At, EncodeInfos, Readable, BodyOf, SizeSum, Padding;
    SplittableMeans(data, p);
    SelectableMeans(p.tensors, indices);
    var sizesResult := DataSizes(p.tensors, p.dataStart, |data|);
    SizesResult(p.tensors, p.dataStart, |data|);
    var raw := RawMetadata(data, p);
    var infos := InfosOf(data, p, indices);
    WrittenIs(data, p, indices);
    FileLayout(p.version, p.kvCount, raw, infos, BodyOf(data, p, indices));
    AlignedReadable(p.tensors, p.dataStart, |data|, indices);
    ShardSizesRecovered(p.tensors, sizesResult.value, indices, AlignUp(HEADER_SIZE + |raw| + |EncodeInfos(infos)|));
  }

  lemma LastFitsFrom(ts: seq<TensorInfo>, dataStart: nat, fileSize: nat)
    requires DataSizes(ts, dataStart, fileSize).Success?
    ensures LastFits(ts, dataStart, fileSize)
  {
  }

  lemma WrittenTensor(data: seq<byte>, p: Parsed, indices: seq<nat>, k: nat)
    requires Splittable(data, p) && Selectable(p.tensors, indices) && k < |indices|
    ensures var file := Written(data, p, indices);
            var q := LayoutOf(p.version, p.kvCount, RawMetadata(data, p), InfosOf(data, p, indices));
            LastFits(q.tensors, q.dataStart, |file|) && SameTensor(data, p, indices[k], file, q, k)
  {
    hide Splittable, Selectable, Parse, TailSafe, LastFits, Aligned, Written, DataSizes, FileOrder, Readable,
         ShardInfos, RegionsInside;
    SplittableMeans(data, p);
    SelectableMeans(p.tensors, indices);
    SizesResult(p.tensors, p.dataStart, |data|);
    var sizes := DataSizes(p.tensors, p.dataStart, |data|).value;
    var file := Written(data, p, indices);
    var q := LayoutOf(p.version, p.kvCount, RawMetadata(data, p), InfosOf(data, p, indices));
    WrittenLayout(data, p, indices);
    LastFitsFrom(q.tensors, q.dataStart, |file|);
    ShardInfosSame(p.tensors, sizes, indices);
    AlignedReadable(p.tensors, p.dataStart, |data|, indices);
    RegionsAreInside(data, p.tensors, p.dataStart);
    RegionsAreInside(file, q.tensors, q.dataStart);
    ShardBytesRecovered(data, p.tensors, sizes, p.dataStart, indices, file, q.dataStart, k);
    assert ShardSizes(sizes, indices)[k] == sizes[indices[k]];
  }

  // Each written shard holds exactly the tensors it was given.
  lemma WrittenHolds(data: seq<byte>, p: Parsed, indices: seq<nat>)
    requires Splittable(data, p) && Selectable(p.tensors, indices) && p.tensors != []
    ensures HoldsExactly(data, p, Written(data, p, indices), indices)
  {
    hide Splittable, Selectable, Parse, TailSafe, LastFits, Aligned, Written, DataSizes, InfosOf, SameTensor, BodyOf;
    SplittableMeans(data, p);
    SelectableMeans(p.tensors, indices);
    var file := Written(data, p, indices);
    var q := LayoutOf(p.version, p.kvCount, RawMetadata(data, p), InfosOf(data, p, indices));
    WrittenParses(data, p, indices);
    WrittenLayout(data, p, indices);
    LastFitsFrom(q.tensors, q.dataStart, |file|);
    forall k | 0 <= k < |indices|
      ensures SameTensor(data, p, indices[k], file, q, k)
    {
      WrittenTensor(data, p, indices, k);
    }
  }

  // ---------------------------------------------------------------------------
  // The whole split
  // ---------------------------------------------------------------------------

  lemma ChosenSelectable(ts: seq<TensorInfo>, from: nat, to: nat, tail: bool)
    requires from < to <= LayerCount(ts) && (tail ==> to == LayerCount(ts))
    ensures Selectable(ts, Chosen(Groups(ts, LayerCount(ts)), from, to, tail))
  {
    hide LayerCount, Chosen, Groups, LayerId;
    ChosenDistinct(ts, LayerCount(ts), from, to, tail);
    ChosenWithin(ts, LayerCount(ts), from, to, tail);
    if Chosen(Groups(ts, LayerCount(ts)), from, to, tail) != [] {
      FirstIsLayer(ts, from, to, tail);
    }
  }

  lemma PlannedSelectable(ts: seq<TensorInfo>, layersPerShard: u32, i: nat)
    requires 0 < LayerCount(ts) < U32_LIMIT && layersPerShard > 0 && PlanOk(LayerCount(ts), layersPerShard)
    requires i < CeilDiv(LayerCount(ts), layersPerShard)
    ensures Selectable(ts, PlannedList(ts, LayerCount(ts), layersPerShard, i))
  {
    var n := LayerCount(ts);
    assert PlanShard(n, layersPerShard, i).Success?;
    hide LayerCount, Chosen, Groups, LayerId, PlannedShard, PlanShard, Covered, CeilDiv, Selectable;
    PlannedIsChosen(ts, n, layersPerShard, i);
    ChosenSelectable(ts, Covered(n, layersPerShard, i), Covered(n, layersPerShard, i + 1),
                     i + 1 == CeilDiv(n, layersPerShard));
  }

  lemma {:induction false} ShardFilesAt(data: seq<byte>, p: Parsed, numLayers: u32, layersPerShard: u32, k: nat, i: nat)
    requires Sliceable(data, p) && LastFits(p.tensors, p.dataStart, |data|)
    requires numLayers > 0 && layersPerShard > 0 && PlanOk(numLayers, layersPerShard)
    requires i < k <= CeilDiv(numLayers, layersPerShard)
    ensures ShardFiles(data, p, numLayers, layersPerShard, k)[i]
         == Written(data, p, PlannedList(p.tensors, numLayers, layersPerShard, i))
    decreases k
  {
    hide Written, PlannedList, LastFits, PlanOk, CeilDiv;
    if i < k - 1 {
      ShardFilesAt(data, p, numLayers, layersPerShard, k - 1, i);
    }
  }

  // A request for which the plan's arithmetic stays in 32 bits.
  predicate GoodRequest(p: Parsed, requested: Option<u32>) {
    var n := LayerCount(p.tensors);
    && 0 < n < U32_LIMIT
    && LayersPerShard(requested, n) > 0
    && CeilDiv(n, LayersPerShard(requested, n)) * LayersPerShard(requested, n) < U32_LIMIT
  }

  lemma GoodRequestMeans(p: Parsed, requested: Option<u32>)
    requires GoodRequest(p, requested)
    ensures var n := LayerCount(p.tensors);
            var k := LayersPerShard(requested, n); (
            && 0 < n < U32_LIMIT && 0 < k < U32_LIMIT && PlanOk(n, k) && p.tensors != [])
  {
    var n := LayerCount(p.tensors);
    CeilDivMeaning(n, 4);
    PlanFits(n, LayersPerShard(requested, n));
  }

  // Reading the architecture for the banner does not stop the program.
  lemma ArchitectureReads(data: seq<byte>, p: Parsed)
    requires Parse(data) == Success(p) && Sliceable(data, p) && p.infoStart == p.metadataEnd
    ensures Metadata.StringFor(data, HEADER_SIZE, p.kvCount, ARCHITECTURE).Success?
  {
    hide Parse, Metadata.PairsEnd, Metadata.StringFor, At, EncodeInfos;
    SourceLayout(data, p);
    Metadata.LookupNeverPanics(data, HEADER_SIZE, p.kvCount, ARCHITECTURE);
  }

  // A good request on a splittable source runs to completion and writes the planned shards.
  lemma SplitSucceeds(data: seq<byte>, p: Parsed, requested: Option<u32>)
    requires Splittable(data, p) && GoodRequest(p, requested)
    ensures PlanOk(LayerCount(p.tensors), LayersPerShard(requested, LayerCount(p.tensors)))
    ensures Sliceable(data, p) && LastFits(p.tensors, p.dataStart, |data|)
    ensures var n := LayerCount(p.tensors);
            var k := LayersPerShard(requested, n);
            SplitBytes(data, requested) == Success(ShardFiles(data, p, n, k, CeilDiv(n, k)))
  {
    hide Splittable, Parse, TailSafe, LastFits, Aligned, ShardFiles, PlanOk, LayerCount, CeilDiv, LayersPerShard,
         Metadata.StringFor;
    SplittableMeans(data, p);
    ArchitectureReads(data, p);
    GoodRequestMeans(p, requested);
  }

  // The split writes these files, one for each of these lists of the source's tensors; the lists hold
  // every tensor once and each file holds exactly the tensors of its list.
  ghost predicate IsLossless(data: seq<byte>, p: Parsed, requested: Option<u32>, files: seq<seq<byte>>,
                             lists: seq<seq<nat>>)
    requires Sliceable(data, p) && LastFits(p.tensors, p.dataStart, |data|)
  {
    && SplitBytes(data, requested) == Success(files)
    && |files| == |lists|
    && Permutation(AllIndices(lists), Range(|p.tensors|))
    && forall i :: 0 <= i < |files| ==> HoldsExactly(data, p, files[i], lists[i])
  }

  // The lists are those of the plan.
  ghost predicate PlannedFor(ts: seq<TensorInfo>, requested: Option<u32>, lists: seq<seq<nat>>) {
    var n := LayerCount(ts);
    var k := LayersPerShard(requested, n);
    && 0 < n < U32_LIMIT && 0 < k < U32_LIMIT && PlanOk(n, k)
    && lists == PlannedLists(ts, n, k)
  }

  // Lossless split: every tensor of the source is in exactly one shard, and each shard parses to
  // exactly its tensors, with the source's names, shapes, types and bytes.
  lemma LosslessSplit(data: seq<byte>, p: Parsed, requested: Option<u32>)
    returns (files: seq<seq<byte>>, lists: seq<seq<nat>>)
    requires Splittable(data, p) && GoodRequest(p, requested)
    ensures Sliceable(data, p) && LastFits(p.tensors, p.dataStart, |data|)
    ensures IsLossless(data, p, requested, files, lists)
    ensures PlannedFor(p.tensors, requested, lists)
  {
    hide Splittable, Parse, TailSafe, LastFits, Aligned, ShardFiles, LayerCount, CeilDiv, LayersPerShard,
         HoldsExactly, Written, PlannedList, GoodRequest, PlanOk, AllIndices, Selectable, SplitBytes, Permutation;
    SplittableMeans(data, p);
    GoodRequestMeans(p, requested);
    SplitSucceeds(data, p, requested);
    var n := LayerCount(p.tensors);
    var k := LayersPerShard(requested, n);
    var q := CeilDiv(n, k);
    files := ShardFiles(data, p, n, k, q);
    lists := PlannedLists(p.tensors, n, k);
    forall i | 0 <= i < q
      ensures HoldsExactly(data, p, files[i], lists[i])
    {
      ShardFilesAt(data, p, n, k, q, i);
      PlannedSelectable(p.tensors, k, i);
      WrittenHolds(data, p, lists[i]);
    }
    PlannedOnce(p.tensors, n, k);
  }

  ghost function PlannedLists(ts: seq<TensorInfo>, numLayers: u32, layersPerShard: u32): (lists: seq<seq<nat>>)
    requires numLayers > 0 && layersPerShard > 0 && PlanOk(numLayers, layersPerShard)
    ensures |lists| == CeilDiv(numLayers, layersPerShard)
    ensures forall i :: 0 <= i < |lists| ==> lists[i] == PlannedList(ts, numLayers, layersPerShard, i)
  {
    seq(CeilDiv(numLayers, layersPerShard), i requires 0 <= i < CeilDiv(numLayers, layersPerShard) =>
      PlannedList(ts, numLayers, layersPerShard, i))
  }

  lemma PlannedOnce(ts: seq<TensorInfo>, numLayers: u32, layersPerShard: u32)
    requires numLayers > 0 && layersPerShard > 0 && PlanOk(numLayers, layersPerShard)
    ensures Permutation(AllIndices(PlannedLists(ts, numLayers, layersPerShard)), Range(|ts|))
  {
    hide Groups, PlannedShard, PlanShard, CeilDiv, AllIndices, Permutation;
    ExactlyOnce(ts, numLayers, layersPerShard, PlannedLists(ts, numLayers, layersPerShard));
  }

  // ---------------------------------------------------------------------------
  // Which file holds which layers
  // ---------------------------------------------------------------------------

  // With k layers a file and q files, the tensor is one for file i: its layer is one of the k from
  // i * k on, or it has none and the file is the last.
  predicate IsFor(t: TensorInfo, k: nat, q: nat, i: nat) {
    var id := LayerId(t.name);
    if id.Some? then i * k <= id.value < (i + 1) * k else i + 1 == q
  }

  lemma PlannedHolds(ts: seq<TensorInfo>, k: u32, i: nat, j: nat)
    requires 0 < LayerCount(ts) < U32_LIMIT && k > 0 && PlanOk(LayerCount(ts), k)
    requires i < CeilDiv(LayerCount(ts), k) && j < |ts|
    ensures j in PlannedList(ts, LayerCount(ts), k, i) <==> IsFor(ts[j], k, CeilDiv(LayerCount(ts), k), i)
  {
    var n := LayerCount(ts);
    assert PlanShard(n, k, i).Success?;
    LayerCountIsLeast(ts);
    GroupOfLayer(ts[j], n);
    hide LayerCount, Chosen, Groups, LayerId, PlannedShard, PlanShard, CeilDiv, GroupOf;
    PlannedIsChosen(ts, n, k, i);
    ChosenMeaning(ts, n, Covered(n, k, i), Covered(n, k, i + 1), i + 1 == CeilDiv(n, k), j);
  }

  // The number asked for, or else a quarter of the layers, rounded up.
  ghost predicate LayersEach(requested: Option<u32>, n: nat, k: nat) {
    if requested.Some? then k == requested.value else 4 * (k - 1) < n <= 4 * k
  }

  lemma LayersEachIsPlanned(requested: Option<u32>, n: nat, k: nat)
    requires LayersEach(requested, n, k) && n > 0
    ensures k == LayersPerShard(requested, n)
  {
    CeilDivMeaning(n, 4);
  }

  // The files of a lossless split: as many as k layers each make necessary, and no more than four
  // unless a number was asked for; the layers i * k to i * k + k - 1 are in file i, and the tensors
  // without a layer are in the last.
  lemma SplitByLayer(data: seq<byte>, p: Parsed, requested: Option<u32>, k: nat)
    returns (files: seq<seq<byte>>, lists: seq<seq<nat>>)
    requires Splittable(data, p) && GoodRequest(p, requested)
    requires LayersEach(requested, LayerCount(p.tensors), k)
    ensures Sliceable(data, p) && LastFits(p.tensors, p.dataStart, |data|)
    ensures IsLossless(data, p, requested, files, lists)
    ensures (|files| - 1) * k < LayerCount(p.tensors) <= |files| * k
    ensures requested.None? ==> |files| <= 4
    ensures forall i, j :: 0 <= i < |files| && 0 <= j < |p.tensors| ==>
              (j in lists[i] <==> IsFor(p.tensors[j], k, |files|, i))
  {
    hide Splittable, GoodRequest, IsLossless, LayerCount, CeilDiv, LayersPerShard, PlanOk, PlannedList, LastFits, IsFor;
    files, lists := LosslessSplit(data, p, requested);
    var n := LayerCount(p.tensors);
    LayersEachIsPlanned(requested, n, k);
    LosslessLists(data, p, requested, files, lists);
    CeilDivMeaning(n, k);
    FewFiles(n, k, |files|);
    forall i, j | 0 <= i < |files| && 0 <= j < |p.tensors|
      ensures j in lists[i] <==> IsFor(p.tensors[j], k, |files|, i)
    {
      PlannedHolds(p.tensors, k, i, j);
    }
  }

  lemma LosslessLists(data: seq<byte>, p: Parsed, requested: Option<u32>, files: seq<seq<byte>>, lists: seq<seq<nat>>)
    requires Sliceable(data, p) && LastFits(p.tensors, p.dataStart, |data|)
    requires IsLossless(data, p, requested, files, lists)
    ensures |files| == |lists|
  {
    hide SplitBytes, HoldsExactly, Permutation, AllIndices;
  }

  lemma FewFiles(n: nat, k: nat, q: nat)
    requires n <= q * k < n + k
    ensures (q - 1) * k < n
    ensures n <= 4 * k ==> q <= 4
  {
    assert (q - 1) * k + k == q * k;
    if n <= 4 * k && q > 4 {
      MulMonotone(5, q, k);
      assert false;
    }
  }

  // ---------------------------------------------------------------------------
  // Exactly when a split is lossless
  // ---------------------------------------------------------------------------

  // The tensors of a splittable source all come through exactly when the request is good, or when
  // there are none and a positive number of layers is asked for.
  lemma LosslessExactly(data: seq<byte>, p: Parsed, requested: Option<u32>)
    requires Splittable(data, p)
    ensures Sliceable(data, p) && LastFits(p.tensors, p.dataStart, |data|)
    ensures (exists files, lists :: IsLossless(data, p, requested, files, lists))
       <==> GoodRequest(p, requested) || (p.tensors == [] && LayersPerShard(requested, 0) > 0)
  {
    hide Splittable, Parse, TailSafe, LastFits, Aligned, LayerCount, HoldsExactly, GoodRequest, AllIndices,
         SplitBytes, Permutation, LayersPerShard;
    SplittableMeans(data, p);
    if GoodRequest(p, requested) {
      var files, lists := LosslessSplit(data, p, requested);
      assert IsLossless(data, p, requested, files, lists);
    } else {
      BadRequest(data, p, requested);
      if p.tensors == [] {
        NothingToLose(data, p, requested);
      } else {
        forall files, lists | IsLossless(data, p, requested, files, lists)
          ensures false
        {
          NothingIsNotAll(lists, |p.tensors|);
        }
      }
    }
  }

  lemma NothingIsNotAll(lists: seq<seq<nat>>, n: nat)
    requires Permutation(AllIndices(lists), Range(n)) && n > 0
    ensures lists != []
  {
    if lists == [] {
      RangePermutation([], n);
      assert false;
    }
  }

  // Any other request fails, on the layer number 2^32 - 1, on a request for no layers or on a plan
  // that overflows, or else there are no layers and no file is written.
  lemma BadRequest(data: seq<byte>, p: Parsed, requested: Option<u32>)
    requires Splittable(data, p) && !GoodRequest(p, requested)
    ensures SplitBytes(data, requested)
         == if LayerCount(p.tensors) >= U32_LIMIT then Failure(Overflow)
            else if LayersPerShard(requested, LayerCount(p.tensors)) == 0 then Failure(NoLayersPerShard)
            else if LayerCount(p.tensors) == 0 then Success([])
            else Failure(Overflow)
  {
    hide Splittable, Parse, TailSafe, LastFits, Aligned, LayerCount, Metadata.StringFor, ShardFiles, PlanOk, CeilDiv;
    SplittableMeans(data, p);
    ArchitectureReads(data, p);
    var n := LayerCount(p.tensors);
    CeilDivMeaning(n, 4);
    var k := LayersPerShard(requested, n);
    if n == 0 {
      NoLayersNoShards(data, p, requested);
    } else if n < U32_LIMIT && k > 0 {
      PlanOkExactly(n, k);
    }
  }

  lemma PlanOkExactly(numLayers: u32, layersPerShard: u32)
    requires numLayers > 0 && layersPerShard > 0
    ensures PlanOk(numLayers, layersPerShard) <==> CeilDiv(numLayers, layersPerShard) * layersPerShard < U32_LIMIT
  {
    PlanFits(numLayers, layersPerShard);
  }

  // Without a layer tensor no shard is written, and automatic mode, asked for a quarter of nothing,
  // fails.
  lemma NoLayersNoShards(data: seq<byte>, p: Parsed, requested: Option<u32>)
    requires Splittable(data, p) && LayerCount(p.tensors) == 0
    ensures SplitBytes(data, requested)
         == if LayersPerShard(requested, 0) > 0 then Success([]) else Failure(NoLayersPerShard)
    ensures LayersPerShard(None, 0) == 0
  {
    hide Splittable, Parse, TailSafe, LastFits, Aligned, LayerCount, Metadata.StringFor;
    SplittableMeans(data, p);
    ArchitectureReads(data, p);
    if LayersPerShard(requested, 0) > 0 {
      CeilDivMeaning(0, LayersPerShard(requested, 0));
    }
  }

  lemma NothingToLose(data: seq<byte>, p: Parsed, requested: Option<u32>)
    requires Splittable(data, p) && p.tensors == []
    ensures Sliceable(data, p) && LastFits(p.tensors, p.dataStart, |data|)
    ensures (exists files, lists :: IsLossless(data, p, requested, files, lists)) <==> LayersPerShard(requested, 0) > 0
  {
    hide Splittable, Parse, TailSafe, LastFits, Aligned, HoldsExactly, SplitBytes, LayersPerShard;
    SplittableMeans(data, p);
    assert LayerCount(p.tensors) == 0;
    NoLayersNoShards(data, p, requested);
    if LayersPerShard(requested, 0) > 0 {
      assert AllIndices([]) == [] == Range(0);
      assert IsLossless(data, p, requested, [], []);
    }
  }
}
