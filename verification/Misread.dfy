// Which conforming files the splitter reads as what they encode, and which it misreads.
module Misread {
  import opened Wrappers
  import opened Bytes
  import opened Parser
  import opened Names
  import opened Format
  import opened Lossless
  import opened Source
  import opened Window
  import Metadata
  import Placement
  import Reader

  // ---------------------------------------------------------------------------
  // The window on one file
  // ---------------------------------------------------------------------------

  // No position that the window tries before the end of the metadata passes for a tensor name.
  ghost predicate NoneBefore(data: seq<byte>, end: nat) {
    forall k: nat :: k < 8 && WindowStart(end) + 4 * k < end ==> !Candidate(data, WindowStart(end) + 4 * k)
  }

  lemma {:induction false} SkipMisses(data: seq<byte>, c: nat, steps: nat, end: nat, metadataEnd: nat)
    requires c + 4 * steps <= end && forall k: nat :: k < steps ==> !Candidate(data, c + 4 * k)
    ensures FirstCandidate(data, c, end, metadataEnd) == FirstCandidate(data, c + 4 * steps, end, metadataEnd)
    decreases steps
  {
    hide Candidate;
    if steps > 0 {
      assert !Candidate(data, c + 4 * 0);
      forall k: nat | k < steps - 1
        ensures !Candidate(data, c + 4 + 4 * k)
      {
        assert !Candidate(data, c + 4 * (k + 1));
      }
      SkipMisses(data, c + 4, steps - 1, end, metadataEnd);
    }
  }

  // From the end of the metadata on, the window finds the name there or nothing.
  lemma FoundFromEnd(data: seq<byte>, end: nat, t: TensorInfo)
    requires end >= 4 && At(data, end, EncodeInfo(t)) && Findable(t.name)
    ensures FirstCandidate(data, end, end + 32, end) == end
  {
    hide At, Candidate, PlausibleName, LittleEndian, EncodeDims, EncodeTail;
    if |t.name| < 256 {
      InfoIsCandidate(data, end, t);
    } else {
      NameAtInfo(data, end, t);
      forall k: nat | k < 8
        ensures !Candidate(data, end + 4 * k)
      {
        NoCandidateInLongName(data, end, t.name, k + 1);
      }
      SkipMisses(data, end, 8, end + 32, end);
    }
  }

  // The window stops at the metadata end exactly when no earlier position that it tries, which
  // starts up to 32 bytes before, passes for a tensor name.
  lemma WindowExact(data: seq<byte>, end: nat, t: TensorInfo)
    requires |data| < SLICE_LIMIT && At(data, end, EncodeInfo(t)) && Findable(t.name)
    requires end == HEADER_SIZE || end >= 32
    ensures InfoStart(data, end) == Success(end) <==> NoneBefore(data, end)
  {
    assert end >= 4;
    hide *;
    FoundFromEnd(data, end, t);
    EndInside(data, end, t);
    WindowIs(data, end);
    if NoneBefore(data, end) {
      NoneMissed(data, end);
    } else {
      OneMisleads(data, end);
    }
  }

  lemma WindowIs(data: seq<byte>, end: nat)
    requires end <= |data| < SLICE_LIMIT
    ensures InfoStart(data, end) == Success(FirstCandidate(data, WindowStart(end), end + 32, end))
  {
    hide FirstCandidate;
  }

  lemma NoneMissed(data: seq<byte>, end: nat)
    requires NoneBefore(data, end) && (end == HEADER_SIZE || end >= 32)
    ensures FirstCandidate(data, WindowStart(end), end + 32, end) == FirstCandidate(data, end, end + 32, end)
  {
    hide Candidate, FirstCandidate;
    var steps: nat := if end == HEADER_SIZE then 6 else 8;
    SkipMisses(data, WindowStart(end), steps, end + 32, end);
  }

  lemma OneMisleads(data: seq<byte>, end: nat)
    requires !NoneBefore(data, end)
    ensures FirstCandidate(data, WindowStart(end), end + 32, end) != end
  {
    hide Candidate, FirstCandidate;
    var k: nat :| k < 8 && WindowStart(end) + 4 * k < end && Candidate(data, WindowStart(end) + 4 * k);
    EarlierCandidateWins(data, WindowStart(end), k, end + 32, end);
  }

  lemma EndInside(data: seq<byte>, end: nat, t: TensorInfo)
    requires At(data, end, EncodeInfo(t))
    ensures end <= |data|
  {
    hide EncodeInfo;
  }

  // ---------------------------------------------------------------------------
  // The parser on one file
  // ---------------------------------------------------------------------------

  lemma MetadataSize(ps: seq<Metadata.Pair>)
    ensures |Metadata.EncodePairs(ps)| == 0 || |Metadata.EncodePairs(ps)| >= 12
  {
  }

  lemma ParseStarts(data: seq<byte>, version: u32, tensorCount: u64, kvCount: u64, end: nat)
    requires At(data, 0, EncodeHeader(version, tensorCount, kvCount))
    requires Metadata.PairsEnd(data, HEADER_SIZE, kvCount) == Success(end)
    requires InfoStart(data, end) != Success(end)
    ensures Parse(data).Success? ==> Parse(data).value.infoStart != end
  {
    HeaderAtEncoded(data, version, tensorCount, kvCount);
    hide At, InfoStart, Metadata.PairsEnd, InfosAt, EncodeHeader;
  }

  // A conforming file is read as what it encodes exactly when nothing in the metadata that the
  // window tries passes for a tensor name.
  lemma ReadsExactly(m: Model)
    requires Conforms(m) && m.tensors != [] && Findable(m.tensors[0].name)
    ensures Parse(Encode(m)) == Success(LayoutIn(m))
       <==> NoneBefore(Encode(m), HEADER_SIZE + |Metadata.EncodePairs(m.pairs)|)
  {
    hide At, EncodeFile, EncodeInfo, EncodeInfos, EncodeHeader, AlignUp, Padding, Metadata.EncodePairs, Findable,
         Metadata.PairsEnd, InfoStart, Parse, NoneBefore, Candidate, WellFormed, Placement.Aligned;
    var raw := Metadata.EncodePairs(m.pairs);
    var data, end := Encode(m), HEADER_SIZE + |raw|;
    FileLayout(m.version, |m.pairs|, raw, m.tensors, m.body);
    EncodedFirst(m.tensors);
    AtSplit(data, end, EncodeInfo(m.tensors[0]), EncodeInfos(m.tensors[1..]));
    MetadataSize(m.pairs);
    PairsAreRead(m);
    WindowExact(data, end, m.tensors[0]);
    if NoneBefore(data, end) {
      ParseEncoded(m.version, |m.pairs|, raw, m.tensors, m.body);
    } else {
      ParseStarts(data, m.version, |m.tensors|, |m.pairs|, end);
    }
  }

  // So every conforming file is misread whose last pair is a boolean under a key of 3, 7, 11, 15 or
  // 19 bytes with a dot in it, and with anything at all in front of it.
  lemma ShortDottedKeyIsMisread(m: Model, front: seq<Metadata.Pair>, key: seq<byte>, flag: byte, dot: nat)
    requires Conforms(m) && m.pairs == front + [Metadata.Pair(key, Metadata.Scalar(Metadata.Bool, [flag]))]
    requires |key| <= 19 && |key| % 4 == 3 && dot < |key| && key[dot] == DOT
    requires |Metadata.EncodePairs(front)| + |key| >= 19
    ensures Parse(Encode(m)) != Success(LayoutIn(m))
  {
    hide At, EncodeFile, EncodeInfo, EncodeInfos, EncodeHeader, AlignUp, Padding, Metadata.EncodePairs,
         Metadata.PairsEnd, InfoStart, Parse, Candidate, WellFormed, Placement.Aligned, Metadata.EncodePair;
    var raw, before := Metadata.EncodePairs(m.pairs), Metadata.EncodePairs(front);
    var pair := Metadata.Pair(key, Metadata.Scalar(Metadata.Bool, [flag]));
    var data, end := Encode(m), HEADER_SIZE + |raw|;
    FileLayout(m.version, |m.pairs|, raw, m.tensors, m.body);
    PairsAreRead(m);
    Metadata.EncodePairsSnoc(front, pair);
    BooleanSize(key, flag);
    ShortDottedKeyMisleads(data, before, key, flag, dot);
    ParseStarts(data, m.version, |m.tensors|, |m.pairs|, end);
  }

  lemma BooleanSize(key: seq<byte>, flag: byte)
    ensures |Metadata.EncodePair(Metadata.Pair(key, Metadata.Scalar(Metadata.Bool, [flag])))| == 13 + |key|
  {
  }

  // ---------------------------------------------------------------------------
  // Such a file
  // ---------------------------------------------------------------------------

  // "a.b" is true.
  const FLAG: Metadata.Pair := Metadata.Pair([97, DOT, 98], Metadata.Scalar(Metadata.Bool, [1]))

  // The sample with one more pair.
  const FLAGGED: Model := SAMPLE.(pairs := PAIRS + [FLAG])

  lemma FlaggedSize()
    ensures |Encode(FLAGGED)| < SLICE_LIMIT
  {
    hide TailSafe, LittleEndian;
    PairsEncoded();
    Metadata.EncodePairsSnoc(PAIRS, FLAG);
    var ts := SAMPLE.tensors;
    assert ts[1..] == [ts[1]] && ts[1..][1..] == [];
    assert [8][1..] == [];
    AlignUpMeaning(HEADER_SIZE + 77 + |EncodeInfos(ts)|);
  }

  lemma FlaggedPairs()
    ensures Metadata.PairsWellFormed(FLAGGED.pairs)
  {
    assert FLAGGED.pairs[1..] == [FLAG] && [FLAG][1..] == [];
    assert Metadata.PairsWellFormed([FLAG]);
  }

  // It conforms, its tensors are those of the sample, and it is misread.
  lemma FlaggedIsMisread()
    ensures Conforms(FLAGGED) && FLAGGED.tensors == SAMPLE.tensors
    ensures Parse(Encode(FLAGGED)) != Success(LayoutIn(FLAGGED))
  {
    hide LayerName, TailSafe, Reader.ValidUtf8, Encode, Metadata.EncodePairs, Parse, LayoutIn, Recognizable;
    SampleConforms();
    PairsEncoded();
    FlaggedSize();
    FlaggedPairs();
    ShortDottedKeyIsMisread(FLAGGED, PAIRS, FLAG.key, 1, 1);
  }
}
