// The splitter from input bytes to shard files.
module Split {
  import opened Wrappers
  import opened Bytes
  import opened Reader
  import opened Parser
  import opened Sorting
  import opened Layers
  import opened Selection
  import opened Regions
  import opened Writer
  import Metadata

  // The number asked for, or a quarter of the layers, rounded up.
  function LayersPerShard(requested: Option<u32>, numLayers: nat): nat {
    if requested.Some? then requested.value else CeilDiv(numLayers, 4)
  }

  predicate PlanOk(numLayers: u32, layersPerShard: u32)
    requires layersPerShard > 0
  {
    numLayers > 0 ==>
      forall i | 0 <= i < CeilDiv(numLayers, layersPerShard) :: PlanShard(numLayers, layersPerShard, i).Success?
  }

  lemma RegionsAreInside(data: seq<byte>, ts: seq<TensorInfo>, dataStart: nat)
    requires LastFits(ts, dataStart, |data|)
    ensures RegionsInside(data, ts, DataSizes(ts, dataStart, |data|).value, dataStart)
  {
    SizesResult(ts, dataStart, |data|);
    hide WholeOrder, DataSizes;
    forall i | 0 <= i < |ts|
      ensures dataStart + ts[i].offset + DataSizes(ts, dataStart, |data|).value[i] <= |data|
    {
      WholeOrderHas(ts, i);
      var j := Position(WholeOrder(ts), i);
      RegionsTile(ts, dataStart, |data|, j);
      if j + 1 < |ts| {
        OrderedAt(ts, j + 1, |ts| - 1);
      }
    }
  }

  lemma PlannedIndexes(ts: seq<TensorInfo>, numLayers: u32, layersPerShard: u32, i: nat)
    requires numLayers > 0 && layersPerShard > 0 && i < CeilDiv(numLayers, layersPerShard)
    requires PlanShard(numLayers, layersPerShard, i).Success?
    ensures Indexes(PlannedShard(Groups(ts, numLayers), PlanShard(numLayers, layersPerShard, i).value), ts)
    ensures Distinct(PlannedShard(Groups(ts, numLayers), PlanShard(numLayers, layersPerShard, i).value))
  {
    hide Groups, PlannedShard, Chosen, PlanShard, Covered;
    PlannedIsChosen(ts, numLayers, layersPerShard, i);
    ChosenDistinct(ts, numLayers, Covered(numLayers, layersPerShard, i), Covered(numLayers, layersPerShard, i + 1),
                   i + 1 == CeilDiv(numLayers, layersPerShard));
  }

  function PlannedList(ts: seq<TensorInfo>, numLayers: u32, layersPerShard: u32, i: nat): (indices: seq<nat>)
    requires numLayers > 0 && layersPerShard > 0 && i < CeilDiv(numLayers, layersPerShard)
    requires PlanOk(numLayers, layersPerShard)
    ensures Indexes(indices, ts)
  {
    PlannedIndexes(ts, numLayers, layersPerShard, i);
    PlannedShard(Groups(ts, numLayers), PlanShard(numLayers, layersPerShard, i).value)
  }

  // What every shard copies from the source.
  predicate Sliceable(data: seq<byte>, p: Parsed) {
    HEADER_SIZE <= p.infoStart <= |data|
  }

  function RawMetadata(data: seq<byte>, p: Parsed): seq<byte>
    requires Sliceable(data, p)
  {
    data[HEADER_SIZE..p.infoStart]
  }

  // The file of a shard that lists the given tensors of a parsed source.
  function Written(data: seq<byte>, p: Parsed, indices: seq<nat>): seq<byte>
    requires Sliceable(data, p) && Indexes(indices, p.tensors)
    requires LastFits(p.tensors, p.dataStart, |data|)
  {
    RegionsAreInside(data, p.tensors, p.dataStart);
    ShardFile(p.version, p.kvCount, RawMetadata(data, p), data, p.tensors,
              DataSizes(p.tensors, p.dataStart, |data|).value, p.dataStart, indices)
  }

  // The first k shard files.
  function ShardFiles(data: seq<byte>, p: Parsed, numLayers: u32, layersPerShard: u32, k: nat): (files: seq<seq<byte>>)
    requires Sliceable(data, p) && LastFits(p.tensors, p.dataStart, |data|)
    requires layersPerShard > 0 && PlanOk(numLayers, layersPerShard) && (k > 0 ==> numLayers > 0)
    requires k <= CeilDiv(numLayers, layersPerShard)
    ensures |files| == k
  {
    if k == 0 then []
    else ShardFiles(data, p, numLayers, layersPerShard, k - 1)
         + [Written(data, p, PlannedList(p.tensors, numLayers, layersPerShard, k - 1))]
  }

  const ARCHITECTURE: seq<byte> := Ascii("general.architecture")

  function SplitParsed(data: seq<byte>, p: Parsed, requested: Option<u32>): Result<seq<seq<byte>>, Error> {
    var numLayers := LayerCount(p.tensors);
    if numLayers >= U32_LIMIT then Failure(Overflow)
    else
      var architecture :- Metadata.StringFor(data, HEADER_SIZE, p.kvCount, ARCHITECTURE);
      CeilDivMeaning(numLayers, 4);
      var layersPerShard := LayersPerShard(requested, numLayers);
      if layersPerShard == 0 then Failure(NoLayersPerShard)
      else if !PlanOk(numLayers, layersPerShard) then Failure(Overflow)
      else
        CeilDivMeaning(numLayers, layersPerShard);
        if !LastFits(p.tensors, p.dataStart, |data|) then Failure(Overflow)
        else if !Sliceable(data, p) then Failure(SliceOutOfRange)
        else Success(ShardFiles(data, p, numLayers, layersPerShard, CeilDiv(numLayers, layersPerShard)))
  }

  // The shard files for a source, or why there are none.
  function SplitBytes(data: seq<byte>, requested: Option<u32>): Result<seq<seq<byte>>, Error> {
    var p :- Parse(data);
    SplitParsed(data, p, requested)
  }

  // The arithmetic of the printed plan, shard by shard.
  method CheckPlan(numLayers: u32, layersPerShard: u32) returns (ok: bool)
    requires layersPerShard > 0
    ensures ok <==> PlanOk(numLayers, layersPerShard)
  {
    hide PlanShard;
    CeilDivMeaning(numLayers, layersPerShard);
    for i := 0 to CeilDiv(numLayers, layersPerShard)
      invariant numLayers > 0 ==> forall k :: 0 <= k < i ==> PlanShard(numLayers, layersPerShard, k).Success?
    {
      var plan := PlanShard(numLayers, layersPerShard, i);
      if plan.Failure? {
        return false;
      }
    }
    ok := true;
  }

  method WriteShards(data: seq<byte>, p: Parsed, numLayers: u32, layersPerShard: u32, groups: seq<seq<nat>>,
                     dataSizes: seq<nat>)
    returns (files: seq<seq<byte>>)
    requires Sliceable(data, p) && LastFits(p.tensors, p.dataStart, |data|)
    requires layersPerShard > 0 && PlanOk(numLayers, layersPerShard)
    requires groups == Groups(p.tensors, numLayers)
    requires DataSizes(p.tensors, p.dataStart, |data|) == Success(dataSizes)
    ensures CeilDiv(numLayers, layersPerShard) > 0 ==> numLayers > 0
    ensures files == ShardFiles(data, p, numLayers, layersPerShard, CeilDiv(numLayers, layersPerShard))
  {
    CeilDivMeaning(numLayers, layersPerShard);
    hide PlanShard, CeilDiv, DataSizes, LastFits, Groups, ShardFile, RegionsInside;
    var rawMetadata := data[HEADER_SIZE..p.infoStart];
    RegionsAreInside(data, p.tensors, p.dataStart);
    files := [];
    for i := 0 to CeilDiv(numLayers, layersPerShard)
      invariant files == ShardFiles(data, p, numLayers, layersPerShard, i)
    {
      var plan := PlanShard(numLayers, layersPerShard, i).value;
      PlannedIndexes(p.tensors, numLayers, layersPerShard, i);
      var indices := GetShardTensorIndices(groups, plan.firstLayer, plan.lastLayer, plan.hasLmHead);
      var out := new OutFile();
      WriteShard(out, p.version, p.kvCount, indices, p.tensors, dataSizes, rawMetadata, data, p.dataStart);
      files := files + [out.contents];
    }
  }

  // main with --split, from the mapped file to the contents of the files it creates.
  method SplitFile(data: seq<byte>, requested: Option<u32>) returns (r: Result<seq<seq<byte>>, Error>)
    ensures r == SplitBytes(data, requested)
  {
    hide PlanOk, CeilDiv, DataSizes, LastFits, Groups, LayerCount, Parse, ShardFiles, Metadata.StringFor;
    var p :- ParseFile(data);
    var numLayers :- CountLayers(p.tensors);
    var architecture :- Metadata.GetMetadataString(data, HEADER_SIZE, p.kvCount, ARCHITECTURE);
    CeilDivMeaning(numLayers, 4);
    var layersPerShard := LayersPerShard(requested, numLayers);
    if layersPerShard == 0 {
      return Failure(NoLayersPerShard);
    }
    CeilDivMeaning(numLayers, layersPerShard);
    var ok := CheckPlan(numLayers, layersPerShard);
    if !ok {
      return Failure(Overflow);
    }
    var groups := GroupTensorsByLayer(p.tensors, numLayers);
    SizesResult(p.tensors, p.dataStart, |data|);
    var dataSizes :- ComputeDataSizes(p.tensors, p.dataStart, |data|);
    if !(HEADER_SIZE <= p.infoStart <= |data|) {
      return Failure(SliceOutOfRange);
    }
    var files := WriteShards(data, p, numLayers, layersPerShard, groups, dataSizes);
    r := Success(files);
  }

  lemma SizesResult(ts: seq<TensorInfo>, dataStart: nat, fileSize: nat)
    ensures LastFits(ts, dataStart, fileSize) ==> DataSizes(ts, dataStart, fileSize).Success?
    ensures !LastFits(ts, dataStart, fileSize) ==> DataSizes(ts, dataStart, fileSize) == Failure(Overflow)
  {
  }
}
