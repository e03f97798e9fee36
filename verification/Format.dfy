// The byte layout of a GGUF file as the splitter writes it, and the proof that the
// parser reads that layout back.
module Format {
  import opened Wrappers
  import opened Bytes
  import opened Reader
  import opened Parser
  import Metadata
  import opened Sorting

  function EncodeDims(dims: seq<u64>): seq<byte> {
    if dims == [] then [] else LittleEndian(dims[0], 8) + EncodeDims(dims[1..])
  }

  function EncodeTail(t: TensorInfo): seq<byte> {
    LittleEndian(t.ggmlType, 4) + LittleEndian(t.offset, 8)
  }

  function EncodeInfo(t: TensorInfo): seq<byte> {
    LittleEndian(|t.name|, 8) + (t.name + (LittleEndian(t.nDims, 4) + (EncodeDims(t.dims) + EncodeTail(t))))
  }

  function EncodeInfos(ts: seq<TensorInfo>): seq<byte> {
    if ts == [] then [] else EncodeInfo(ts[0]) + EncodeInfos(ts[1..])
  }

  function EncodeHeader(version: u32, tensorCount: nat, kvCount: u64): (s: seq<byte>)
    ensures |s| == HEADER_SIZE
  {
    LittleEndian(MAGIC, 4) + (LittleEndian(version, 4) + (LittleEndian(tensorCount, 8) + LittleEndian(kvCount, 8)))
  }

  // Everything up to the alignment padding.
  function FrontMatter(version: u32, kvCount: u64, raw: seq<byte>, infos: seq<TensorInfo>): seq<byte> {
    EncodeHeader(version, |infos|, kvCount) + (raw + EncodeInfos(infos))
  }

  function Padding(n: nat): (s: seq<byte>)
    ensures |s| == AlignUp(n) - n
  {
    AlignUpMeaning(n);
    Zeros(AlignUp(n) - n)
  }

  function EncodeFile(version: u32, kvCount: u64, raw: seq<byte>, infos: seq<TensorInfo>, body: seq<byte>): seq<byte> {
    var front := FrontMatter(version, kvCount, raw, infos);
    front + (Padding(|front|) + body)
  }

  // What a reader of that file must find.
  function LayoutOf(version: u32, kvCount: u64, raw: seq<byte>, infos: seq<TensorInfo>): Parsed {
    var infoStart := HEADER_SIZE + |raw|;
    var infoEnd := infoStart + |EncodeInfos(infos)|;
    Parsed(version, kvCount, infoStart, infoStart, infos, infoEnd, AlignUp(infoEnd))
  }

  // ---------------------------------------------------------------------------
  // Reading a layout back
  // ---------------------------------------------------------------------------

  lemma {:induction false} DimsAtEncoded(data: seq<byte>, off: nat, dims: seq<u64>)
    requires |data| < SLICE_LIMIT && At(data, off, EncodeDims(dims))
    ensures DimsAt(data, off, |dims|) == Success((dims, off + |EncodeDims(dims)|))
    decreases dims
  {
    hide At;
    if dims != [] {
      AtSplit(data, off, LittleEndian(dims[0], 8), EncodeDims(dims[1..]));
      ReadU64At(data, off, dims[0]);
      DimsAtEncoded(data, off + 8, dims[1..]);
      assert dims == [dims[0]] + dims[1..];
    }
  }

  lemma NameAtEncoded(data: seq<byte>, off: nat, name: seq<byte>, rest: seq<byte>)
    requires |data| < SLICE_LIMIT && ValidUtf8(name)
    requires At(data, off, LittleEndian(|name|, 8) + (name + rest))
    ensures NameAt(data, off) == Success((name, off + 8 + |name|))
    ensures At(data, off + 8 + |name|, rest)
  {
    hide ValidUtf8, ReadU64, LittleEndian;
    AtSplit(data, off, LittleEndian(|name|, 8), name + rest);
    AtSplit(data, off + 8, name, rest);
    ReadU64At(data, off, |name|);
  }

  lemma TailAtEncoded(data: seq<byte>, off: nat, t: TensorInfo)
    requires |data| < SLICE_LIMIT && t.offset < U64_LIMIT && At(data, off, EncodeTail(t))
    ensures ReadU32(data, off) == Success((t.ggmlType, off + 4))
    ensures ReadU64(data, off + 4) == Success((t.offset, off + 12))
  {
    hide At;
    AtSplit(data, off, LittleEndian(t.ggmlType, 4), LittleEndian(t.offset, 8));
    ReadU32At(data, off, t.ggmlType);
    ReadU64At(data, off + 4, t.offset);
  }

  lemma DimsAndTailAtEncoded(data: seq<byte>, off: nat, t: TensorInfo)
    requires |data| < SLICE_LIMIT && |t.dims| == t.nDims && t.offset < U64_LIMIT
    requires At(data, off, LittleEndian(t.nDims, 4) + (EncodeDims(t.dims) + EncodeTail(t)))
    ensures var o := off + 4 + |EncodeDims(t.dims)|;
            && ReadU32(data, off) == Success((t.nDims, off + 4))
            && DimsAt(data, off + 4, t.nDims) == Success((t.dims, o))
            && ReadU32(data, o) == Success((t.ggmlType, o + 4))
            && ReadU64(data, o + 4) == Success((t.offset, o + 12))
  {
    hide At, ReadU32, ReadU64, DimsAt, LittleEndian, EncodeDims;
    AtSplit(data, off, LittleEndian(t.nDims, 4), EncodeDims(t.dims) + EncodeTail(t));
    AtSplit(data, off + 4, EncodeDims(t.dims), EncodeTail(t));
    ReadU32At(data, off, t.nDims);
    DimsAtEncoded(data, off + 4, t.dims);
    TailAtEncoded(data, off + 4 + |EncodeDims(t.dims)|, t);
  }

  lemma InfoAtEncoded(data: seq<byte>, off: nat, t: TensorInfo)
    requires |data| < SLICE_LIMIT && WellFormed(t) && At(data, off, EncodeInfo(t))
    ensures InfoAt(data, off) == Success((t, off + |EncodeInfo(t)|))
  {
    hide At, NameAt, DimsAt, ReadU32, ReadU64, ValidUtf8, EncodeDims, LittleEndian;
    NameAtEncoded(data, off, t.name, LittleEndian(t.nDims, 4) + (EncodeDims(t.dims) + EncodeTail(t)));
    DimsAndTailAtEncoded(data, off + 8 + |t.name|, t);
  }

  lemma {:induction false} InfosAtEncoded(data: seq<byte>, off: nat, ts: seq<TensorInfo>)
    requires |data| < SLICE_LIMIT && (forall i :: 0 <= i < |ts| ==> WellFormed(ts[i]))
    requires At(data, off, EncodeInfos(ts))
    ensures InfosAt(data, off, |ts|) == Success((ts, off + |EncodeInfos(ts)|))
    decreases ts
  {
    hide At, InfoAt, EncodeInfo, WellFormed;
    if ts != [] {
      AtSplit(data, off, EncodeInfo(ts[0]), EncodeInfos(ts[1..]));
      InfoAtEncoded(data, off, ts[0]);
      InfosAtEncoded(data, off + |EncodeInfo(ts[0])|, ts[1..]);
      assert ts == [ts[0]] + ts[1..];
    }
  }

  lemma HeaderAtEncoded(data: seq<byte>, version: u32, tensorCount: u64, kvCount: u64)
    requires At(data, 0, EncodeHeader(version, tensorCount, kvCount))
    ensures |data| >= HEADER_SIZE
    ensures Decode32(data[0..4]) == MAGIC && Decode32(data[4..8]) == version
    ensures Decode64(data[8..16]) == tensorCount && Decode64(data[16..24]) == kvCount
  {
    var counts := LittleEndian(tensorCount, 8) + LittleEndian(kvCount, 8);
    AtSplit(data, 0, LittleEndian(MAGIC, 4), LittleEndian(version, 4) + counts);
    AtSplit(data, 4, LittleEndian(version, 4), counts);
    AtSplit(data, 8, LittleEndian(tensorCount, 8), LittleEndian(kvCount, 8));
    Decode32Encode(MAGIC);
    Decode32Encode(version);
    Decode64Encode(tensorCount);
    Decode64Encode(kvCount);
  }

  // Where the pieces of a written file lie.
  lemma FileLayout(version: u32, kvCount: u64, raw: seq<byte>, infos: seq<TensorInfo>, body: seq<byte>)
    ensures var file := EncodeFile(version, kvCount, raw, infos, body);
            var infoStart := HEADER_SIZE + |raw|;
            var infoEnd := infoStart + |EncodeInfos(infos)|;
            && At(file, 0, EncodeHeader(version, |infos|, kvCount))
            && At(file, HEADER_SIZE, raw)
            && At(file, infoStart, EncodeInfos(infos))
            && At(file, infoEnd, Padding(infoEnd))
            && At(file, AlignUp(infoEnd), body)
            && |file| == AlignUp(infoEnd) + |body|
  {
    hide At, EncodeHeader, EncodeInfos, Padding, AlignUp;
    var file := EncodeFile(version, kvCount, raw, infos, body);
    var front := FrontMatter(version, kvCount, raw, infos);
    AlignUpMeaning(|front|);
    AtSelf(file);
    AtSplit(file, 0, front, Padding(|front|) + body);
    AtSplit(file, |front|, Padding(|front|), body);
    AtSplit(file, 0, EncodeHeader(version, |infos|, kvCount), raw + EncodeInfos(infos));
    AtSplit(file, HEADER_SIZE, raw, EncodeInfos(infos));
  }

  // Parsing a written file returns what was written, once the metadata skips to its end
  // and the window stops there.
  lemma ParseEncoded(version: u32, kvCount: u64, raw: seq<byte>, infos: seq<TensorInfo>, body: seq<byte>)
    requires |EncodeFile(version, kvCount, raw, infos, body)| < SLICE_LIMIT && |infos| < U64_LIMIT
    requires forall i :: 0 <= i < |infos| ==> WellFormed(infos[i])
    requires Metadata.PairsEnd(EncodeFile(version, kvCount, raw, infos, body), HEADER_SIZE, kvCount)
          == Success(HEADER_SIZE + |raw|)
    requires InfoStart(EncodeFile(version, kvCount, raw, infos, body), HEADER_SIZE + |raw|)
          == Success(HEADER_SIZE + |raw|)
    ensures Parse(EncodeFile(version, kvCount, raw, infos, body))
         == Success(LayoutOf(version, kvCount, raw, infos))
  {
    hide At, EncodeFile, EncodeHeader, InfoStart, AlignUp, Metadata.PairsEnd, WellFormed, InfosAt, EncodeInfos;
    var file := EncodeFile(version, kvCount, raw, infos, body);
    FileLayout(version, kvCount, raw, infos, body);
    HeaderAtEncoded(file, version, |infos|, kvCount);
    InfosAtEncoded(file, HEADER_SIZE + |raw|, infos);
  }

  // ---------------------------------------------------------------------------
  // The layout in bytes
  // ---------------------------------------------------------------------------

  // "GGUF"
  lemma MagicBytes()
    ensures LittleEndian(MAGIC, 4) == [71, 71, 85, 70]
  {
    assert MAGIC / 0x100 == 0x465547 && MAGIC / 0x1_0000 == 0x4655 && MAGIC / 0x100_0000 == 0x46;
  }

  // A file without a whole header, or that does not begin with that text, is refused.
  lemma OnlyGguf(data: seq<byte>)
    ensures |data| < 24 ==> Parse(data) == Failure(TooSmall)
    ensures |data| >= 24 && data[..4] != [71, 71, 85, 70] ==> Parse(data) == Failure(BadMagic)
  {
    if |data| >= 24 {
      MagicBytes();
      EncodeDecode(data[0..4]);
      hide Metadata.PairsEnd, InfoStart, InfosAt, LittleEndian;
    }
  }

  // A header and a tensor info in bytes: version 3, two tensors, one pair; the tensor "a" with
  // dimensions 5 and 6, type 2, at offset 3.
  lemma HeaderBytes()
    ensures EncodeHeader(3, 2, 1)
         == [71, 71, 85, 70, 3, 0, 0, 0, 2, 0, 0, 0, 0, 0, 0, 0, 1, 0, 0, 0, 0, 0, 0, 0]
  {
    MagicBytes();
    Metadata.SmallNumbers();
    hide LittleEndian;
  }

  lemma InfoBytes()
    ensures EncodeInfo(TensorInfo([97], 2, [5, 6], 2, 3))
         == [1, 0, 0, 0, 0, 0, 0, 0, 97, 2, 0, 0, 0, 5, 0, 0, 0, 0, 0, 0, 0, 6, 0, 0, 0, 0, 0, 0, 0,
             2, 0, 0, 0, 3, 0, 0, 0, 0, 0, 0, 0]
  {
    Metadata.SmallNumbers();
    InfoTailBytes();
    hide LittleEndian, EncodeDims, EncodeTail;
  }

  lemma InfoTailBytes()
    ensures EncodeDims([5, 6]) == [5, 0, 0, 0, 0, 0, 0, 0, 6, 0, 0, 0, 0, 0, 0, 0]
    ensures EncodeTail(TensorInfo([97], 2, [5, 6], 2, 3)) == [2, 0, 0, 0, 3, 0, 0, 0, 0, 0, 0, 0]
  {
    Metadata.SmallNumbers();
    hide LittleEndian;
    assert [5, 6][1..] == [6] && [6][1..] == [];
    assert EncodeDims([6]) == [6, 0, 0, 0, 0, 0, 0, 0];
  }

  // The infos lie one behind the other, the first in front.
  lemma InfosInOrder(s: TensorInfo, t: TensorInfo)
    ensures EncodeInfos([s, t]) == EncodeInfo(s) + EncodeInfo(t)
  {
    hide EncodeInfo;
    assert [s, t][1..] == [t] && [t][1..] == [];
    assert EncodeInfos([t]) == EncodeInfo(t) + [] == EncodeInfo(t);
  }

  // ---------------------------------------------------------------------------
  // What the parser accepts is an encoding
  // ---------------------------------------------------------------------------

  lemma {:induction false} DimsAtIsEncoding(data: seq<byte>, off: nat, n: nat)
    requires DimsAt(data, off, n).Success? && off <= |data|
    ensures At(data, off, EncodeDims(DimsAt(data, off, n).value.0))
    ensures DimsAt(data, off, n).value.1 == off + |EncodeDims(DimsAt(data, off, n).value.0)|
    decreases n
  {
    if n > 0 {
      var (d, next) := ReadU64(data, off).value;
      var dims := DimsAt(data, off, n).value.0;
      var rest := DimsAt(data, next, n - 1).value.0;
      ReadU64Bytes(data, off);
      DimsAtIsEncoding(data, next, n - 1);
      hide At, ReadU64;
      assert dims[1..] == rest;
      AtJoin(data, off, LittleEndian(d, 8), EncodeDims(rest));
    }
  }

  lemma NameAtIsEncoding(data: seq<byte>, off: nat)
    requires NameAt(data, off).Success?
    ensures var (name, end) := NameAt(data, off).value;
            At(data, off, LittleEndian(|name|, 8) + name) && end == off + 8 + |name|
  {
    hide ValidUtf8;
    ReadU64Bytes(data, off);
    var (name, end) := NameAt(data, off).value;
    AtJoin(data, off, LittleEndian(|name|, 8), name);
  }

  lemma InfoAtParts(data: seq<byte>, off: nat)
    requires InfoAt(data, off).Success?
    ensures NameAt(data, off).Success?
    ensures var (t, end) := InfoAt(data, off).value;
            var (name, o1) := NameAt(data, off).value; (
            && name == t.name
            && ReadU32(data, o1) == Success((t.nDims, o1 + 4))
            && DimsAt(data, o1 + 4, t.nDims).Success?
            && DimsAt(data, o1 + 4, t.nDims).value.0 == t.dims
            && var o3 := DimsAt(data, o1 + 4, t.nDims).value.1;
            && ReadU32(data, o3) == Success((t.ggmlType, o3 + 4))
            && ReadU64(data, o3 + 4) == Success((t.offset, o3 + 12))
            && end == o3 + 12)
  {
    hide NameAt, DimsAt, WellFormed, ValidUtf8;
  }

  lemma InfoAtIsEncoding(data: seq<byte>, off: nat)
    requires InfoAt(data, off).Success?
    ensures At(data, off, EncodeInfo(InfoAt(data, off).value.0))
    ensures InfoAt(data, off).value.1 == off + |EncodeInfo(InfoAt(data, off).value.0)|
  {
    hide At, InfoAt, NameAt, DimsAt, ReadU32, ReadU64, ValidUtf8, WellFormed, LittleEndian, EncodeDims;
    InfoAtParts(data, off);
    var t := InfoAt(data, off).value.0;
    var o1 := NameAt(data, off).value.1;
    var o3 := DimsAt(data, o1 + 4, t.nDims).value.1;
    NameAtIsEncoding(data, off);
    ReadU32Bytes(data, o1);
    DimsAtIsEncoding(data, o1 + 4, t.nDims);
    ReadU32Bytes(data, o3);
    ReadU64Bytes(data, o3 + 4);
    AtJoin(data, o3, LittleEndian(t.ggmlType, 4), LittleEndian(t.offset, 8));
    AtJoin(data, o1 + 4, EncodeDims(t.dims), EncodeTail(t));
    AtJoin(data, o1, LittleEndian(t.nDims, 4), EncodeDims(t.dims) + EncodeTail(t));
    AtJoin(data, off, LittleEndian(|t.name|, 8) + t.name,
           LittleEndian(t.nDims, 4) + (EncodeDims(t.dims) + EncodeTail(t)));
    Associative(LittleEndian(|t.name|, 8), t.name, LittleEndian(t.nDims, 4) + (EncodeDims(t.dims) + EncodeTail(t)));
  }

  lemma InfosAtParts(data: seq<byte>, off: nat, n: nat)
    requires n > 0 && InfosAt(data, off, n).Success?
    ensures InfoAt(data, off).Success?
    ensures var (t, next) := InfoAt(data, off).value; (
            && InfosAt(data, next, n - 1).Success?
            && InfosAt(data, off, n).value.0 == [t] + InfosAt(data, next, n - 1).value.0
            && InfosAt(data, off, n).value.1 == InfosAt(data, next, n - 1).value.1)
  {
    hide InfoAt, WellFormed;
  }

  lemma InfosAtNone(data: seq<byte>, off: nat)
    requires off <= |data|
    ensures InfosAt(data, off, 0) == Success(([], off)) && EncodeInfos([]) == [] && At(data, off, [])
  {
  }

  lemma EncodeInfosCons(t: TensorInfo, rest: seq<TensorInfo>)
    ensures EncodeInfos([t] + rest) == EncodeInfo(t) + EncodeInfos(rest)
  {
    hide EncodeInfo;
    assert ([t] + rest)[1..] == rest;
  }

  // The bytes the tensor infos were read from are exactly their encoding.
  lemma {:induction false} InfosAtIsEncoding(data: seq<byte>, off: nat, n: nat)
    requires InfosAt(data, off, n).Success? && off <= |data|
    ensures At(data, off, EncodeInfos(InfosAt(data, off, n).value.0))
    ensures InfosAt(data, off, n).value.1 == off + |EncodeInfos(InfosAt(data, off, n).value.0)|
    decreases n
  {
    hide At, InfoAt, InfosAt, EncodeInfo, EncodeInfos, WellFormed;
    if n == 0 {
      InfosAtNone(data, off);
    } else {
      InfosAtParts(data, off, n);
      var (t, next) := InfoAt(data, off).value;
      var rest := InfosAt(data, next, n - 1).value.0;
      InfoAtIsEncoding(data, off);
      InfoEndInside(data, off);
      InfosAtIsEncoding(data, next, n - 1);
      EncodeInfosCons(t, rest);
      AtJoin(data, off, EncodeInfo(t), EncodeInfos(rest));
    }
  }

  lemma InfoEndInside(data: seq<byte>, off: nat)
    requires InfoAt(data, off).Success?
    ensures InfoAt(data, off).value.1 <= |data|
  {
    hide NameAt, DimsAt, WellFormed;
  }
}
