// The header, the tensor-info start window, the tensor infos and the data start.
module Parser {
  import opened Wrappers
  import opened Bytes
  import opened Reader
  import Metadata
  import Names

  const MAGIC: u32 := 0x46554747
  const HEADER_SIZE: nat := 24

  datatype TensorInfo = TensorInfo(name: seq<byte>, nDims: u32, dims: seq<u64>, ggmlType: u32, offset: nat)

  // A file as the splitter sees it once the tensor infos are read.
  datatype Parsed = Parsed(
    version: u32, kvCount: u64, metadataEnd: nat, infoStart: nat,
    tensors: seq<TensorInfo>, infoEnd: nat, dataStart: nat)

  // ---------------------------------------------------------------------------
  // Tensor infos
  // ---------------------------------------------------------------------------

  function DimsAt(data: seq<byte>, off: nat, n: nat): (r: Result<(seq<u64>, nat), Error>)
    ensures r.Success? ==> |r.value.0| == n && r.value.1 >= off
    decreases n
  {
    if n == 0 then Success(([], off))
    else
      var (d, next) :- ReadU64(data, off);
      var (rest, end) :- DimsAt(data, next, n - 1);
      Success(([d] + rest, end))
  }

  function NameAt(data: seq<byte>, off: nat): (r: Result<(seq<byte>, nat), Error>)
    ensures r.Success? ==> r.value.1 <= |data| && r.value.1 >= off + 8 && ValidUtf8(r.value.0)
    ensures r.Success? ==> |r.value.0| < U64_LIMIT
  {
    var (len, start) :- ReadU64(data, off);
    var end :- Advance(start, len);
    if end > |data| then Failure(NameOverflow)
    else if !ValidUtf8(data[start..end]) then Failure(BadUtf8)
    else Success((data[start..end], end))
  }

  function InfoAt(data: seq<byte>, off: nat): (r: Result<(TensorInfo, nat), Error>)
    ensures r.Success? ==> r.value.1 >= off && WellFormed(r.value.0)
  {
    var (name, o1) :- NameAt(data, off);
    var (nDims, o2) :- ReadU32(data, o1);
    var (dims, o3) :- DimsAt(data, o2, nDims);
    var (ggmlType, o4) :- ReadU32(data, o3);
    var (offset, o5) :- ReadU64(data, o4);
    Success((TensorInfo(name, nDims, dims, ggmlType, offset), o5))
  }

  function InfosAt(data: seq<byte>, off: nat, n: nat): (r: Result<(seq<TensorInfo>, nat), Error>)
    ensures r.Success? ==> |r.value.0| == n && r.value.1 >= off
    ensures r.Success? ==> forall i :: 0 <= i < n ==> WellFormed(r.value.0[i])
    decreases n
  {
    if n == 0 then Success(([], off))
    else
      var (t, next) :- InfoAt(data, off);
      var (rest, end) :- InfosAt(data, next, n - 1);
      Success(([t] + rest, end))
  }

  // What the types of the source say of a TensorInfo it has built.
  predicate WellFormed(t: TensorInfo) {
    ValidUtf8(t.name) && |t.name| < U64_LIMIT && |t.dims| == t.nDims && t.offset < U64_LIMIT
  }

  // What a loop over the remaining items yields once `done` has been pushed.
  function Pushed<T>(done: seq<T>, r: Result<(seq<T>, nat), Error>): Result<(seq<T>, nat), Error> {
    if r.Failure? then r else Success((done + r.value.0, r.value.1))
  }

  lemma PushedNothing<T>(r: Result<(seq<T>, nat), Error>)
    ensures Pushed([], r) == r
  {
    if r.Success? {
      assert [] + r.value.0 == r.value.0;
    }
  }

  lemma PushedOne<T>(done: seq<T>, x: T, r: Result<(seq<T>, nat), Error>)
    ensures Pushed(done + [x], r) == Pushed(done, Pushed([x], r))
  {
    if r.Success? {
      assert done + [x] + r.value.0 == done + ([x] + r.value.0);
    }
  }

  method ReadDims(data: seq<byte>, start: nat, n: nat) returns (r: Result<(seq<u64>, nat), Error>)
    ensures r == DimsAt(data, start, n)
  {
    var offset := start;
    var dims: seq<u64> := [];
    PushedNothing(DimsAt(data, start, n));
    for i := 0 to n
      invariant offset >= start
      invariant DimsAt(data, start, n) == Pushed(dims, DimsAt(data, offset, n - i))
    {
      var read :- ReadU64(data, offset);
      var (d, next) := read;
      PushedOne(dims, d, DimsAt(data, next, n - i - 1));
      dims := dims + [d];
      offset := next;
    }
    assert dims + [] == dims;
    r := Success((dims, offset));
  }

  method ReadInfo(data: seq<byte>, offset: nat) returns (r: Result<(TensorInfo, nat), Error>)
    ensures r == InfoAt(data, offset)
  {
    var nameRead :- NameAt(data, offset);
    var (name, o1) := nameRead;
    var countRead :- ReadU32(data, o1);
    var (nDims, o2) := countRead;
    var dimsRead :- ReadDims(data, o2, nDims);
    var (dims, o3) := dimsRead;
    var typeRead :- ReadU32(data, o3);
    var (ggmlType, o4) := typeRead;
    var offsetRead :- ReadU64(data, o4);
    var (tensorOffset, o5) := offsetRead;
    r := Success((TensorInfo(name, nDims, dims, ggmlType, tensorOffset), o5));
  }

  method ReadInfos(data: seq<byte>, start: nat, n: nat) returns (r: Result<(seq<TensorInfo>, nat), Error>)
    ensures r == InfosAt(data, start, n)
  {
    var offset := start;
    var tensors: seq<TensorInfo> := [];
    PushedNothing(InfosAt(data, start, n));
    for i := 0 to n
      invariant InfosAt(data, start, n) == Pushed(tensors, InfosAt(data, offset, n - i))
    {
      var read :- ReadInfo(data, offset);
      var (t, next) := read;
      PushedOne(tensors, t, InfosAt(data, next, n - i - 1));
      tensors := tensors + [t];
      offset := next;
    }
    assert tensors + [] == tensors;
    r := Success((tensors, offset));
  }

  // ---------------------------------------------------------------------------
  // The window in which the first tensor info is looked for
  // ---------------------------------------------------------------------------

  predicate OccursAt(s: seq<byte>, part: seq<byte>, i: nat) {
    i + |part| <= |s| && s[i..i + |part|] == part
  }

  predicate Contains(s: seq<byte>, part: seq<byte>) {
    exists i | 0 <= i <= |s| :: OccursAt(s, part, i)
  }

  const WEIGHT: seq<byte> := [119, 101, 105, 103, 104, 116]
  const BIAS: seq<byte> := [98, 105, 97, 115]
  const NORM: seq<byte> := [110, 111, 114, 109]
  const EMBD: seq<byte> := [101, 109, 98, 100]
  const ROPE: seq<byte> := [114, 111, 112, 101]
  const FREQ: seq<byte> := [102, 114, 101, 113]
  const TOK_EMBD: seq<byte> := [116, 111, 107, 95, 101, 109, 98, 100]

  // Replacing malformed UTF-8 first, as the source does, cannot make or break an ASCII match.
  predicate PlausibleName(nm: seq<byte>) {
    || Contains(nm, [Names.DOT]) || Contains(nm, WEIGHT) || Contains(nm, BIAS)
    || Contains(nm, NORM) || Contains(nm, EMBD) || Contains(nm, ROPE)
    || Contains(nm, FREQ) || Contains(nm, TOK_EMBD)
  }

  // A name is plausible exactly when one of these texts occurs in it.
  lemma PlausibleExactly(nm: seq<byte>)
    ensures PlausibleName(nm)
       <==> || Contains(nm, Ascii(".")) || Contains(nm, Ascii("weight")) || Contains(nm, Ascii("bias"))
            || Contains(nm, Ascii("norm")) || Contains(nm, Ascii("embd")) || Contains(nm, Ascii("rope"))
            || Contains(nm, Ascii("freq")) || Contains(nm, Ascii("tok_embd"))
  {
    hide Contains;
    assert [Names.DOT] == Ascii(".") && WEIGHT == Ascii("weight") && BIAS == Ascii("bias");
    assert NORM == Ascii("norm") && EMBD == Ascii("embd") && ROPE == Ascii("rope");
    assert FREQ == Ascii("freq") && TOK_EMBD == Ascii("tok_embd");
  }

  predicate Candidate(data: seq<byte>, c: nat) {
    && c + 8 <= |data|
    && var nl := Decode64(data[c..c + 8]);
    && 0 < nl < 256
    && c + 8 + nl <= |data|
    && PlausibleName(data[c + 8..c + 8 + nl])
  }

  // The length and the text of a name lie at c.
  ghost predicate NameLies(data: seq<byte>, c: nat, nm: seq<byte>) {
    At(data, c, LittleEndian(|nm|, 8) + nm)
  }

  // A position passes for a tensor name exactly when a plausible text of 1 to 255 bytes lies there.
  lemma CandidateExactly(data: seq<byte>, c: nat)
    ensures Candidate(data, c) <==> exists nm :: NameLies(data, c, nm) && 0 < |nm| < 256 && PlausibleName(nm)
  {
    hide PlausibleName, LittleEndian, At;
    if Candidate(data, c) {
      var nl := Decode64(data[c..c + 8]);
      var nm := data[c + 8..c + 8 + nl];
      EncodeDecode(data[c..c + 8]);
      AtSlice(data, c, c + 8);
      AtSlice(data, c + 8, c + 8 + nl);
      AtJoin(data, c, LittleEndian(nl, 8), nm);
      assert NameLies(data, c, nm);
    }
    forall nm | NameLies(data, c, nm) && 0 < |nm| < 256 && PlausibleName(nm)
      ensures Candidate(data, c)
    {
      AtSplit(data, c, LittleEndian(|nm|, 8), nm);
      SliceAt(data, c, LittleEndian(|nm|, 8));
      SliceAt(data, c + 8, nm);
      Decode64Encode(|nm|);
    }
  }

  lemma AtSlice(data: seq<byte>, lo: nat, hi: nat)
    requires lo <= hi <= |data|
    ensures At(data, lo, data[lo..hi])
  {
  }

  lemma SliceAt(data: seq<byte>, off: nat, s: seq<byte>)
    requires At(data, off, s)
    ensures off + |s| <= |data| && data[off..off + |s|] == s
  {
  }

  // The first candidate in steps of 4 from c, or the metadata end if there is none.
  function FirstCandidate(data: seq<byte>, c: nat, end: nat, metadataEnd: nat): (start: nat)
    ensures start == metadataEnd || (c <= start < end && Candidate(data, start))
    decreases end - c
  {
    if c >= end then metadataEnd
    else if Candidate(data, c) then c
    else FirstCandidate(data, c + 4, end, metadataEnd)
  }

  function WindowStart(metadataEnd: nat): nat {
    if metadataEnd < 32 then 0 else metadataEnd - 32
  }

  function InfoStart(data: seq<byte>, metadataEnd: nat): Result<nat, Error> {
    if metadataEnd + 36 >= U64_LIMIT then Failure(Overflow)
    else Success(FirstCandidate(data, WindowStart(metadataEnd), metadataEnd + 32, metadataEnd))
  }

  // The last position that is tried is 28 bytes past the metadata, and the eight bytes of the length
  // there must not reach 2^64.
  lemma WindowOverflows(data: seq<byte>, metadataEnd: nat)
    ensures InfoStart(data, metadataEnd) == Failure(Overflow) <==> metadataEnd + 28 + 8 > 0xFFFF_FFFF_FFFF_FFFF
  {
    hide FirstCandidate;
  }

  method FindInfoStart(data: seq<byte>, metadataEnd: nat) returns (r: Result<nat, Error>)
    ensures r == InfoStart(data, metadataEnd)
  {
    if metadataEnd + 36 >= U64_LIMIT {
      return Failure(Overflow);
    }
    var best := metadataEnd;
    var candidate := WindowStart(metadataEnd);
    while candidate < metadataEnd + 32
      invariant best == metadataEnd
      invariant FirstCandidate(data, WindowStart(metadataEnd), metadataEnd + 32, metadataEnd)
             == FirstCandidate(data, candidate, metadataEnd + 32, metadataEnd)
      decreases metadataEnd + 32 - candidate
    {
      if Candidate(data, candidate) {
        best := candidate;
        break;
      }
      candidate := candidate + 4;
    }
    r := Success(best);
  }

  // ---------------------------------------------------------------------------
  // The whole front matter
  // ---------------------------------------------------------------------------

  function Parse(data: seq<byte>): (r: Result<Parsed, Error>)
    ensures r.Success? ==> forall i :: 0 <= i < |r.value.tensors| ==> WellFormed(r.value.tensors[i])
  {
    if |data| < HEADER_SIZE then Failure(TooSmall)
    else if Decode32(data[0..4]) != MAGIC then Failure(BadMagic)
    else
      var version := Decode32(data[4..8]);
      var tensorCount := Decode64(data[8..16]);
      var kvCount := Decode64(data[16..24]);
      var metadataEnd :- Metadata.PairsEnd(data, HEADER_SIZE, kvCount);
      var infoStart :- InfoStart(data, metadataEnd);
      var (tensors, infoEnd) :- InfosAt(data, infoStart, tensorCount);
      Success(Parsed(version, kvCount, metadataEnd, infoStart, tensors, infoEnd, AlignUp(infoEnd)))
  }

  method ParseFile(data: seq<byte>) returns (r: Result<Parsed, Error>)
    ensures r == Parse(data)
  {
    if |data| < HEADER_SIZE {
      return Failure(TooSmall);
    }
    var magic := Decode32(data[0..4]);
    if magic != MAGIC {
      return Failure(BadMagic);
    }
    var version := Decode32(data[4..8]);
    var tensorCount := Decode64(data[8..16]);
    var kvCount := Decode64(data[16..24]);
    var metadataEnd :- Metadata.SkipPairs(data, HEADER_SIZE, kvCount);
    var infoStart :- FindInfoStart(data, metadataEnd);
    var infos :- ReadInfos(data, infoStart, tensorCount);
    var (tensors, infoEnd) := infos;
    r := Success(Parsed(version, kvCount, metadataEnd, infoStart, tensors, infoEnd, AlignUp(infoEnd)));
  }

  // ---------------------------------------------------------------------------
  // The window stops at the end of the metadata
  // ---------------------------------------------------------------------------

  // No continuation can make position c of this metadata look like a tensor name:
  // its eight bytes are no length from 1 to 255, or the text they announce ends
  // inside the metadata and is not plausible.
  predicate NoDecoy(raw: seq<byte>, c: nat)
    requires c + 8 <= |raw|
  {
    var nl := Decode64(raw[c..c + 8]);
    nl == 0 || nl >= 256 || (c + 8 + nl <= |raw| && !PlausibleName(raw[c + 8..c + 8 + nl]))
  }

  // The seven candidates that lie wholly in the last 32 bytes of the metadata.
  predicate TailSafe(raw: seq<byte>) {
    |raw| >= 32 && forall k | 0 <= k < 7 :: NoDecoy(raw, |raw| - 32 + 4 * k)
  }

  lemma {:induction false} HighByte(s: seq<byte>, i: nat)
    requires i < |s| && s[i] > 0
    ensures FromLittleEndian(s) >= Pow256(i)
  {
    if i > 0 {
      HighByte(s[1..], i - 1);
    }
  }

  lemma {:induction false} AllZero(s: seq<byte>)
    requires forall i :: 0 <= i < |s| ==> s[i] == 0
    ensures FromLittleEndian(s) == 0
  {
    if s != [] {
      AllZero(s[1..]);
    }
  }

  lemma ZerosNotPlausible(nm: seq<byte>)
    requires forall i :: 0 <= i < |nm| ==> nm[i] == 0
    ensures !PlausibleName(nm)
  {
    forall part: seq<byte>, i: nat | part != [] && OccursAt(nm, part, i)
      ensures part[0] == 0
    {
      assert nm[i] == part[0];
    }
  }

  lemma SliceInside(data: seq<byte>, raw: seq<byte>, c: nat, n: nat)
    requires At(data, HEADER_SIZE, raw) && c + n <= |raw|
    ensures data[HEADER_SIZE + c..HEADER_SIZE + c + n] == raw[c..c + n]
  {
    var held := data[HEADER_SIZE..HEADER_SIZE + |raw|];
    var part, rawPart := data[HEADER_SIZE + c..HEADER_SIZE + c + n], raw[c..c + n];
    assert held == raw;
    forall i | 0 <= i < n
      ensures part[i] == rawPart[i]
    {
      assert held[c + i] == data[HEADER_SIZE + c + i];
    }
  }

  lemma DotIsPlausible(nm: seq<byte>, i: nat)
    requires i < |nm| && nm[i] == Names.DOT
    ensures PlausibleName(nm)
  {
    assert OccursAt(nm, [Names.DOT], i);
  }

  lemma NoEarlyCandidate(data: seq<byte>, raw: seq<byte>, c: nat)
    requires At(data, HEADER_SIZE, raw) && c + 8 <= |raw| && NoDecoy(raw, c)
    ensures !Candidate(data, HEADER_SIZE + c)
  {
    var p := HEADER_SIZE + c;
    SliceInside(data, raw, c, 8);
    var nl := Decode64(raw[c..c + 8]);
    if c + 8 + nl <= |raw| && p + 8 + nl <= |data| {
      SliceInside(data, raw, c + 8, nl);
    }
  }

  // A name length from 1 to 255 right after the metadata rules out the straddling candidate.
  lemma NoStraddlingCandidate(data: seq<byte>, metadataEnd: nat)
    requires 4 <= metadataEnd < |data| && data[metadataEnd] > 0
    ensures !Candidate(data, metadataEnd - 4)
  {
    var c := metadataEnd - 4;
    if c + 8 <= |data| {
      HighByte(data[c..c + 8], 4);
      Pow256Values();
    }
  }

  lemma NoCandidateInZeros(data: seq<byte>, metadataEnd: nat, c: nat)
    requires 4 <= metadataEnd <= |data| && c >= metadataEnd - 4
    requires forall i :: metadataEnd <= i < |data| ==> data[i] == 0
    requires c != metadataEnd - 4 ==> c >= metadataEnd
    ensures !Candidate(data, c)
  {
    if c + 8 <= |data| {
      if c >= metadataEnd {
        AllZero(data[c..c + 8]);
      } else {
        var nl := Decode64(data[c..c + 8]);
        if c + 8 + nl <= |data| {
          ZerosNotPlausible(data[c + 8..c + 8 + nl]);
        }
      }
    }
  }

  lemma EarlyCandidatesMiss(data: seq<byte>, raw: seq<byte>)
    requires At(data, HEADER_SIZE, raw) && TailSafe(raw)
    requires !Candidate(data, HEADER_SIZE + |raw| - 4)
    ensures var end := HEADER_SIZE + |raw|;
            FirstCandidate(data, WindowStart(end), end + 32, end) == FirstCandidate(data, end, end + 32, end)
  {
    hide Candidate, NoDecoy, At;
    var end := HEADER_SIZE + |raw|;
    var c := WindowStart(end);
    for k := 0 to 7
      invariant FirstCandidate(data, WindowStart(end), end + 32, end)
             == FirstCandidate(data, c + 4 * k, end + 32, end)
    {
      NoEarlyCandidate(data, raw, |raw| - 32 + 4 * k);
    }
  }

  // With a safe metadata tail and a plausible first name, the window stops where the metadata does.
  lemma WindowStopsAtFirstName(data: seq<byte>, raw: seq<byte>)
    requires |data| < SLICE_LIMIT && At(data, HEADER_SIZE, raw) && TailSafe(raw)
    requires HEADER_SIZE + |raw| < |data| && data[HEADER_SIZE + |raw|] > 0
    requires Candidate(data, HEADER_SIZE + |raw|)
    ensures InfoStart(data, HEADER_SIZE + |raw|) == Success(HEADER_SIZE + |raw|)
  {
    NoStraddlingCandidate(data, HEADER_SIZE + |raw|);
    EarlyCandidatesMiss(data, raw);
  }

  // A name the window stops at: it accepts the name itself, or the name is too long for it and holds
  // no zero byte that could pass for the end of another length.
  predicate Findable(nm: seq<byte>) {
    || (0 < |nm| < 256 && PlausibleName(nm))
    || (256 <= |nm| < U32_LIMIT && 0 !in nm)
  }

  // A positive number below 2^32 has a positive byte among its first four.
  lemma LowByte(x: nat) returns (i: nat)
    requires 0 < x < U32_LIMIT
    ensures i < 4 && LittleEndian(x, 8)[i] > 0
  {
    var a, b, c := x / 0x100, x / 0x100 / 0x100, x / 0x100 / 0x100 / 0x100;
    assert LittleEndian(x, 8)[1..] == LittleEndian(a, 7);
    assert LittleEndian(a, 7)[1..] == LittleEndian(b, 6);
    assert LittleEndian(b, 6)[1..] == LittleEndian(c, 5);
    i := if x % 0x100 > 0 then 0 else if a % 0x100 > 0 then 1 else if b % 0x100 > 0 then 2 else 3;
  }

  lemma HighByteNoCandidate(data: seq<byte>, c: nat, i: nat)
    requires 1 <= i < 8 && c + i < |data| && data[c + i] > 0
    ensures !Candidate(data, c)
  {
    if c + 8 <= |data| {
      HighByte(data[c..c + 8], i);
      assert Pow256(i) >= 256 by {
        PowGrows(i);
      }
    }
  }

  lemma {:induction false} PowGrows(i: nat)
    requires i > 0
    ensures Pow256(i) >= 256
  {
    if i > 1 {
      PowGrows(i - 1);
    }
  }

  // No candidate in or just before a long name without zero bytes.
  lemma NoCandidateInLongName(data: seq<byte>, end: nat, nm: seq<byte>, k: nat)
    requires end >= 4 && At(data, end, LittleEndian(|nm|, 8) + nm)
    requires 256 <= |nm| < U32_LIMIT && 0 !in nm && k < 9
    ensures !Candidate(data, end - 4 + 4 * k)
  {
    hide At, Candidate, LittleEndian;
    AtSplit(data, end, LittleEndian(|nm|, 8), nm);
    if k == 0 {
      var i := LowByte(|nm|);
      AtByte(data, end, LittleEndian(|nm|, 8), i);
      HighByteNoCandidate(data, end - 4, 4 + i);
    } else if k == 1 {
      LongLengthNoCandidate(data, end, |nm|);
    } else {
      var i := if k == 2 then 0 else 4 * k - 5;
      AtByte(data, end + 8, nm, i);
      HighByteNoCandidate(data, end - 4 + 4 * k, if k == 2 then 4 else 7);
    }
  }

  lemma LongLengthNoCandidate(data: seq<byte>, c: nat, n: u64)
    requires At(data, c, LittleEndian(n, 8)) && n >= 256
    ensures !Candidate(data, c)
  {
    hide PlausibleName;
    Decode64Encode(n);
  }

  lemma AtByte(data: seq<byte>, off: nat, s: seq<byte>, i: nat)
    requires At(data, off, s) && i < |s|
    ensures off + i < |data| && data[off + i] == s[i]
  {
    assert data[off..off + |s|][i] == s[i];
  }

  // Such a name makes the window fall back to where the metadata ends.
  lemma WindowStopsAtLongName(data: seq<byte>, raw: seq<byte>, nm: seq<byte>)
    requires |data| < SLICE_LIMIT && At(data, HEADER_SIZE, raw) && TailSafe(raw)
    requires At(data, HEADER_SIZE + |raw|, LittleEndian(|nm|, 8) + nm)
    requires 256 <= |nm| < U32_LIMIT && 0 !in nm
    ensures InfoStart(data, HEADER_SIZE + |raw|) == Success(HEADER_SIZE + |raw|)
  {
    hide Candidate, At, TailSafe;
    var end := HEADER_SIZE + |raw|;
    NoCandidateInLongName(data, end, nm, 0);
    EarlyCandidatesMiss(data, raw);
    for k := 0 to 8
      invariant FirstCandidate(data, end, end + 32, end) == FirstCandidate(data, end + 4 * k, end + 32, end)
    {
      NoCandidateInLongName(data, end, nm, k + 1);
    }
    assert end + 36 < U64_LIMIT by {
      AtFits(data, HEADER_SIZE, raw);
    }
  }

  lemma AtFits(data: seq<byte>, off: nat, s: seq<byte>)
    requires At(data, off, s)
    ensures off + |s| <= |data|
  {
  }

  // The same for a file in which nothing but padding follows the metadata.
  lemma WindowStopsAtPadding(data: seq<byte>, raw: seq<byte>)
    requires |data| < SLICE_LIMIT && At(data, HEADER_SIZE, raw) && TailSafe(raw)
    requires forall i :: HEADER_SIZE + |raw| <= i < |data| ==> data[i] == 0
    ensures InfoStart(data, HEADER_SIZE + |raw|) == Success(HEADER_SIZE + |raw|)
  {
    var end := HEADER_SIZE + |raw|;
    NoCandidateInZeros(data, end, end - 4);
    EarlyCandidatesMiss(data, raw);
    var start := FirstCandidate(data, end, end + 32, end);
    if start != end {
      NoCandidateInZeros(data, end, start);
    }
  }
}
