// The sources the splitter promises to handle: every aligned GGUF file with a decoy-free metadata
// tail, described by what it encodes instead of by how the splitter happens to parse it.
module Source {
  import opened Wrappers
  import opened Bytes
  import opened Reader
  import opened Parser
  import opened Names
  import opened Layers
  import opened Regions
  import opened Format
  import opened Placement
  import opened Split
  import opened Lossless
  import Metadata

  // The content of a GGUF file, before it is laid out in bytes.
  datatype Model = Model(version: u32, pairs: seq<Metadata.Pair>, tensors: seq<TensorInfo>, body: seq<byte>)

  // The file of a model; the field that counts the pairs has 64 bits.
  function Encode(m: Model): seq<byte> {
    EncodeFile(m.version, |m.pairs| % U64_LIMIT, Metadata.EncodePairs(m.pairs), m.tensors, m.body)
  }

  function LayoutIn(m: Model): Parsed {
    LayoutOf(m.version, |m.pairs| % U64_LIMIT, Metadata.EncodePairs(m.pairs), m.tensors)
  }

  // What the format asks of a model.
  ghost predicate Conforms(m: Model) {
    && |Encode(m)| < SLICE_LIMIT
    && |m.pairs| < U64_LIMIT && Metadata.PairsWellFormed(m.pairs)
    && |m.tensors| < U64_LIMIT && (forall i :: 0 <= i < |m.tensors| ==> WellFormed(m.tensors[i]))
    && Aligned(m.tensors)
    && forall i :: 0 <= i < |m.tensors| ==> m.tensors[i].offset <= |m.body|
  }

  // What the search window asks beyond that.
  ghost predicate Recognizable(m: Model) {
    && TailSafe(Metadata.EncodePairs(m.pairs))
    && m.tensors != []
    && Findable(m.tensors[0].name)
    && LayersFindable(m.tensors)
  }

  lemma OffsetsFit(ts: seq<TensorInfo>, dataStart: nat, bodySize: nat)
    requires forall i :: 0 <= i < |ts| ==> ts[i].offset <= bodySize
    ensures LastFits(ts, dataStart, dataStart + bodySize)
  {
    hide WholeOrder;
  }

  lemma PairsAreRead(m: Model)
    requires Conforms(m)
    ensures Metadata.PairsEnd(Encode(m), HEADER_SIZE, |m.pairs|)
         == Success(HEADER_SIZE + |Metadata.EncodePairs(m.pairs)|)
  {
    hide At, EncodeFile, EncodeInfos, EncodeHeader, AlignUp, Aligned, Padding, Metadata.EncodePairs,
         Metadata.PairsEnd;
    FileLayout(m.version, |m.pairs|, Metadata.EncodePairs(m.pairs), m.tensors, m.body);
    Metadata.SkipInvertsEncodePairs(Encode(m), HEADER_SIZE, m.pairs);
  }

  lemma WindowFindsTensors(m: Model)
    requires |Encode(m)| < SLICE_LIMIT && |m.pairs| < U64_LIMIT && Recognizable(m)
    ensures var end := HEADER_SIZE + |Metadata.EncodePairs(m.pairs)|;
            InfoStart(Encode(m), end) == Success(end)
  {
    hide At, EncodeFile, EncodeInfo, EncodeInfos, EncodeHeader, AlignUp, Padding, Metadata.EncodePairs, TailSafe,
         PlausibleName, Candidate, InfoStart, LayerId;
    var raw := Metadata.EncodePairs(m.pairs);
    var off := HEADER_SIZE + |raw|;
    FileLayout(m.version, |m.pairs|, raw, m.tensors, m.body);
    EncodedFirst(m.tensors);
    AtSplit(Encode(m), off, EncodeInfo(m.tensors[0]), EncodeInfos(m.tensors[1..]));
    WindowStopsAtInfo(Encode(m), raw, m.tensors[0]);
  }

  // The parser reads back what the file encodes.
  lemma EncodedParses(m: Model)
    requires Conforms(m) && Recognizable(m)
    ensures Parse(Encode(m)) == Success(LayoutIn(m))
  {
    hide EncodeFile, LayoutOf, Metadata.EncodePairs, Metadata.PairsEnd, InfoStart, TailSafe, PlausibleName, Parse,
         Aligned, WellFormed, LayerId;
    PairsAreRead(m);
    WindowFindsTensors(m);
    ParseEncoded(m.version, |m.pairs|, Metadata.EncodePairs(m.pairs), m.tensors, m.body);
  }

  // Every file that conforms and is recognizable can be split without loss.
  lemma EncodedIsSplittable(m: Model)
    requires Conforms(m) && Recognizable(m)
    ensures Splittable(Encode(m), LayoutIn(m))
  {
    hide EncodeFile, EncodeInfos, EncodeHeader, AlignUp, Padding, Metadata.EncodePairs, TailSafe, PlausibleName,
         Parse, Aligned, WellFormed, LastFits, LayerId;
    EncodedParses(m);
    var raw := Metadata.EncodePairs(m.pairs);
    FileLayout(m.version, |m.pairs|, raw, m.tensors, m.body);
    OffsetsFit(m.tensors, LayoutIn(m).dataStart, |m.body|);
  }

  // ---------------------------------------------------------------------------
  // A source that meets all of it
  // ---------------------------------------------------------------------------

  function Letters(n: nat): (s: seq<byte>)
    ensures |s| == n && forall i :: 0 <= i < n ==> s[i] == 97
  {
    seq(n, _ => 97)
  }

  // "blk.0.w" for n = 0, "blk.1.w" for n = 1, and so on.
  function LayerName(n: nat): seq<byte>
    requires n < 10
  {
    BLK + [48 + n, DOT, 119]
  }

  const PAIRS: seq<Metadata.Pair> := [Metadata.Pair(Letters(1), Metadata.Str(Letters(40)))]

  // Two layers, listed against the order of their offsets; the last region is not a multiple of 32.
  const SAMPLE: Model := Model(
    3, PAIRS,
    [TensorInfo(LayerName(0), 1, [8], 0, 32), TensorInfo(LayerName(1), 1, [8], 0, 0)],
    Letters(40))

  lemma {:induction false} AsciiIsValid(s: seq<byte>)
    requires forall i :: 0 <= i < |s| ==> s[i] < 0x80
    ensures ValidUtf8(s)
  {
    if s != [] {
      AsciiIsValid(s[1..]);
    }
  }

  lemma LayerNameRead(n: nat)
    requires n < 10
    ensures LayerId(LayerName(n)) == Some(n)
    ensures |LayerName(n)| == 7 && ValidUtf8(LayerName(n))
  {
    AsciiIsValid(LayerName(n));
    var rest := LayerName(n)[4..];
    assert rest == [48 + n, DOT, 119];
    assert rest[1..] == [DOT, 119];
    assert FindDot(rest[1..]) == Some(0);
    assert FindDot(rest) == Some(1);
    assert rest[..1] == [48 + n];
    assert [48 + n][..0] == [];
    assert Decimal([48 + n]) == n;
  }

  lemma LettersAreNoLength(s: seq<byte>)
    requires |s| == 8 && forall i :: 0 <= i < 8 ==> s[i] == 97
    ensures Decode64(s) >= 256
  {
    HighByte(s, 1);
    Pow256Values();
  }

  lemma TextTailIsSafe(raw: seq<byte>, front: seq<byte>)
    requires raw == front + Letters(40)
    ensures TailSafe(raw)
  {
    forall k | 0 <= k < 7
      ensures NoDecoy(raw, |raw| - 32 + 4 * k)
    {
      var c := |raw| - 32 + 4 * k;
      LettersAreNoLength(raw[c..c + 8]);
    }
  }

  lemma PairsEncoded()
    ensures |Metadata.EncodePairs(PAIRS)| == 61 && TailSafe(Metadata.EncodePairs(PAIRS))
  {
    hide TailSafe, LittleEndian;
    var raw := Metadata.EncodePairs(PAIRS);
    var front := LittleEndian(1, 8) + Letters(1) + LittleEndian(Metadata.STRING, 4) + LittleEndian(40, 8);
    assert Metadata.EncodePairs(PAIRS[1..]) == [];
    assert raw == front + Letters(40);
    TextTailIsSafe(raw, front);
  }

  lemma SampleSize()
    ensures |Encode(SAMPLE)| < SLICE_LIMIT
  {
    hide TailSafe, LittleEndian;
    PairsEncoded();
    var ts := SAMPLE.tensors;
    assert ts[1..] == [ts[1]] && ts[1..][1..] == [];
    assert [8][1..] == [];
    AlignUpMeaning(HEADER_SIZE + 61 + |EncodeInfos(ts)|);
  }

  lemma SampleConforms()
    ensures Conforms(SAMPLE) && Recognizable(SAMPLE)
  {
    hide LayerId, LayerName, TailSafe, ValidUtf8, PlausibleName, Encode, Metadata.EncodePairs;
    LayerNameRead(0);
    LayerNameRead(1);
    LayerNamePlausible(LayerName(0));
    PairsEncoded();
    SampleSize();
  }

  lemma SampleLayers()
    ensures LayerCount(SAMPLE.tensors) == 2
  {
    hide LayerId, LayerName;
    LayerNameRead(0);
    LayerNameRead(1);
    var ts := SAMPLE.tensors;
    assert ts[..1] == [ts[0]] && ts[..1][..0] == [];
  }

  // One layer a shard is always a good request.
  lemma OneLayerEachIsGood(p: Parsed)
    requires 0 < LayerCount(p.tensors) < U32_LIMIT
    ensures GoodRequest(p, Some(1))
  {
    hide LayerCount;
  }

  // The conditions can all be met, with every layer in a shard of its own.
  lemma SampleIsSplittable()
    ensures Splittable(Encode(SAMPLE), LayoutIn(SAMPLE)) && GoodRequest(LayoutIn(SAMPLE), Some(1))
    ensures LayerCount(LayoutIn(SAMPLE).tensors) == 2
  {
    hide LayerCount, Conforms, Recognizable, Splittable, GoodRequest, Encode;
    SampleConforms();
    SampleLayers();
    EncodedIsSplittable(SAMPLE);
    OneLayerEachIsGood(LayoutIn(SAMPLE));
  }

  // ---------------------------------------------------------------------------
  // A source that is lost
  // ---------------------------------------------------------------------------

  // "output.weight"
  const OUTPUT_WEIGHT: seq<byte> := [111, 117, 116, 112, 117, 116, 46, 119, 101, 105, 103, 104, 116]

  // Nothing but an output tensor.
  const HEAD_ONLY: Model := Model(3, PAIRS, [TensorInfo(OUTPUT_WEIGHT, 1, [8], 0, 0)], Letters(40))

  lemma HeadOnlySize()
    ensures |Encode(HEAD_ONLY)| < SLICE_LIMIT
  {
    hide TailSafe, LittleEndian;
    PairsEncoded();
    var ts := HEAD_ONLY.tensors;
    assert ts[1..] == [] && EncodeInfos(ts[1..]) == [];
    assert [8][1..] == [] && |EncodeDims([8])| == 8;
    AlignUpMeaning(HEADER_SIZE + 61 + |EncodeInfos(ts)|);
  }

  lemma NoPrefixNoLayer(name: seq<byte>)
    requires |name| > 0 && name[0] != BLK[0]
    ensures LayerId(name).None?
  {
  }

  lemma HeadOnlyName()
    ensures LayerId(OUTPUT_WEIGHT).None? && ValidUtf8(OUTPUT_WEIGHT) && PlausibleName(OUTPUT_WEIGHT)
  {
    hide ValidUtf8, PlausibleName;
    AsciiIsValid(OUTPUT_WEIGHT);
    DotIsPlausible(OUTPUT_WEIGHT, 6);
    NoPrefixNoLayer(OUTPUT_WEIGHT);
  }

  lemma HeadOnlyConforms()
    ensures Conforms(HEAD_ONLY) && Recognizable(HEAD_ONLY) && LayerCount(HEAD_ONLY.tensors) == 0
  {
    hide LayerId, TailSafe, ValidUtf8, PlausibleName, Encode, Metadata.EncodePairs;
    HeadOnlyName();
    PairsEncoded();
    HeadOnlySize();
    assert HEAD_ONLY.tensors[..0] == [];
  }

  // It can be split with success, no file is written, and its tensor is nowhere; nor does any other
  // request save it.
  lemma HeadOnlyIsLost()
    ensures Splittable(Encode(HEAD_ONLY), LayoutIn(HEAD_ONLY)) && |LayoutIn(HEAD_ONLY).tensors| == 1
    ensures SplitBytes(Encode(HEAD_ONLY), Some(1)) == Success([])
    ensures Sliceable(Encode(HEAD_ONLY), LayoutIn(HEAD_ONLY))
         && LastFits(LayoutIn(HEAD_ONLY).tensors, LayoutIn(HEAD_ONLY).dataStart, |Encode(HEAD_ONLY)|)
    ensures forall requested, files, lists ::
              !IsLossless(Encode(HEAD_ONLY), LayoutIn(HEAD_ONLY), requested, files, lists)
  {
    hide LayerCount, Conforms, Recognizable, Splittable, Encode, SplitBytes, LastFits, Sliceable, IsLossless;
    HeadOnlyConforms();
    EncodedIsSplittable(HEAD_ONLY);
    var data, p := Encode(HEAD_ONLY), LayoutIn(HEAD_ONLY);
    NoLayersNoShards(data, p, Some(1));
    SplittableMeans(data, p);
    forall requested, files, lists
      ensures !IsLossless(data, p, requested, files, lists)
    {
      LosslessExactly(data, p, requested);
    }
  }
}
