// When the 64-byte search window really finds the end of the metadata.
module Window {
  import opened Wrappers
  import opened Bytes
  import opened Parser
  import opened Metadata
  import Names

  // A file that holds this metadata and, right after it, a tensor name the window accepts.
  ghost predicate Continues(data: seq<byte>, raw: seq<byte>) {
    |data| < SLICE_LIMIT && At(data, HEADER_SIZE, raw) && Candidate(data, HEADER_SIZE + |raw|)
  }

  lemma CandidateFirstByte(data: seq<byte>, c: nat)
    requires Candidate(data, c)
    ensures c < |data| && data[c] > 0
  {
    hide PlausibleName;
    var s := data[c..c + 8];
    assert FromLittleEndian(s) == s[0] + 0x100 * FromLittleEndian(s[1..]);
  }

  lemma {:induction false} EarlierCandidateWins(data: seq<byte>, c: nat, steps: nat, end: nat, metadataEnd: nat)
    requires c + 4 * steps < metadataEnd && metadataEnd <= end && Candidate(data, c + 4 * steps)
    ensures FirstCandidate(data, c, end, metadataEnd) < metadataEnd
    decreases steps
  {
    hide Candidate;
    if steps > 0 && !Candidate(data, c) {
      EarlierCandidateWins(data, c + 4, steps - 1, end, metadataEnd);
    }
  }

  // A continuation whose first name is 46 dots long: its length byte is itself a dot.
  function Dots(n: nat): (s: seq<byte>)
    ensures |s| == n && forall i :: 0 <= i < n ==> s[i] == Names.DOT
  {
    seq(n, _ => Names.DOT)
  }

  function Trap(raw: seq<byte>): seq<byte> {
    Zeros(HEADER_SIZE) + raw + (LittleEndian(46, 8) + Dots(300))
  }

  lemma TrapLayout(raw: seq<byte>)
    ensures At(Trap(raw), HEADER_SIZE, raw)
    ensures At(Trap(raw), HEADER_SIZE + |raw|, LittleEndian(46, 8) + Dots(300))
    ensures |Trap(raw)| == HEADER_SIZE + |raw| + 308
  {
    AtSelf(Trap(raw));
    AtSplit(Trap(raw), 0, Zeros(HEADER_SIZE) + raw, LittleEndian(46, 8) + Dots(300));
    AtSplit(Trap(raw), 0, Zeros(HEADER_SIZE), raw);
  }

  lemma FirstOf46()
    ensures LittleEndian(46, 8)[0] == 46
  {
  }

  lemma TrapContinues(raw: seq<byte>)
    requires |raw| < SLICE_LIMIT - 332
    ensures Continues(Trap(raw), raw) && Trap(raw)[HEADER_SIZE + |raw|] == Names.DOT
  {
    var data := Trap(raw);
    var c := HEADER_SIZE + |raw|;
    hide PlausibleName, Trap, LittleEndian, Dots;
    TrapLayout(raw);
    AtSplit(data, c, LittleEndian(46, 8), Dots(300));
    Decode64Encode(46);
    FirstOf46();
    assert data[c] == data[c..c + 8][0];
    assert data[c + 8] == data[c + 8..c + 8 + 300][0] == Dots(300)[0];
    DotIsPlausible(data[c + 8..c + 8 + 46], 0);
  }

  // A decoy fires in the trap: its text ends inside the metadata and is plausible, or runs into
  // the dot that follows.
  lemma DecoyFires(raw: seq<byte>, c: nat)
    requires |raw| < SLICE_LIMIT - 332 && c + 8 <= |raw| && !NoDecoy(raw, c)
    ensures Candidate(Trap(raw), HEADER_SIZE + c)
  {
    var data := Trap(raw);
    var p := HEADER_SIZE + c;
    var nl := Decode64(raw[c..c + 8]);
    hide PlausibleName, Trap;
    TrapLayout(raw);
    TrapContinues(raw);
    SliceInside(data, raw, c, 8);
    if c + 8 + nl <= |raw| {
      SliceInside(data, raw, c + 8, nl);
    } else {
      DotIsPlausible(data[p + 8..p + 8 + nl], |raw| - (c + 8));
    }
  }

  // The tail condition is exact: the window stops at the metadata end of every file with this
  // metadata and an acceptable first name if and only if no position of the tail can pass for a name.
  lemma TailSafeExact(raw: seq<byte>)
    requires 32 <= |raw| < SLICE_LIMIT - 332
    ensures TailSafe(raw)
       <==> forall data :: Continues(data, raw) ==> InfoStart(data, HEADER_SIZE + |raw|) == Success(HEADER_SIZE + |raw|)
  {
    var end := HEADER_SIZE + |raw|;
    hide Candidate, NoDecoy, At, InfoStart;
    if TailSafe(raw) {
      forall data | Continues(data, raw)
        ensures InfoStart(data, end) == Success(end)
      {
        CandidateFirstByte(data, end);
        WindowStopsAtFirstName(data, raw);
      }
    } else {
      var k :| 0 <= k < 7 && !NoDecoy(raw, |raw| - 32 + 4 * k);
      TrapContinues(raw);
      TrapMissed(raw, k);
    }
  }

  lemma TrapMissed(raw: seq<byte>, k: nat)
    requires 32 <= |raw| < SLICE_LIMIT - 332 && k < 7 && !NoDecoy(raw, |raw| - 32 + 4 * k)
    ensures InfoStart(Trap(raw), HEADER_SIZE + |raw|) != Success(HEADER_SIZE + |raw|)
  {
    var end := HEADER_SIZE + |raw|;
    DecoyFires(raw, |raw| - 32 + 4 * k);
    hide Candidate, NoDecoy, Trap, FirstCandidate, InfoStart;
    EarlierCandidateWins(Trap(raw), end - 32, k, end + 32, end);
    MissedBy(Trap(raw), end);
  }

  // A concrete family the window gets wrong: metadata whose last pair is a boolean under a key of
  // 3, 7, 11, 15 or 19 bytes that contains a dot. The key itself is taken for the first tensor name.
  lemma ShortDottedKeyMisleads(data: seq<byte>, before: seq<byte>, key: seq<byte>, flag: byte, dot: nat)
    requires |data| < SLICE_LIMIT && |before| + |key| >= 19
    requires At(data, HEADER_SIZE, before + EncodePair(Pair(key, Scalar(Bool, [flag]))))
    requires |key| <= 19 && |key| % 4 == 3 && dot < |key| && key[dot] == Names.DOT
    ensures var metadataEnd := HEADER_SIZE + |before| + 13 + |key|;
            InfoStart(data, metadataEnd) != Success(metadataEnd)
  {
    hide At, Candidate, FirstCandidate, EncodePair, InfoStart;
    var c := HEADER_SIZE + |before|;
    var metadataEnd := c + 13 + |key|;
    AtSplit(data, HEADER_SIZE, before, EncodePair(Pair(key, Scalar(Bool, [flag]))));
    KeyIsCandidate(data, c, key, flag, dot);
    var steps := (19 - |key|) / 4;
    assert metadataEnd - 32 + 4 * steps == c;
    EarlierCandidateWins(data, metadataEnd - 32, steps, metadataEnd + 32, metadataEnd);
    MissedBy(data, metadataEnd);
  }

  lemma MissedBy(data: seq<byte>, metadataEnd: nat)
    requires metadataEnd >= 32
    requires FirstCandidate(data, metadataEnd - 32, metadataEnd + 32, metadataEnd) < metadataEnd
    ensures InfoStart(data, metadataEnd) != Success(metadataEnd)
  {
    hide Candidate, FirstCandidate;
  }

  lemma KeyIsCandidate(data: seq<byte>, c: nat, key: seq<byte>, flag: byte, dot: nat)
    requires At(data, c, EncodePair(Pair(key, Scalar(Bool, [flag]))))
    requires dot < |key| < 256 && key[dot] == Names.DOT
    ensures Candidate(data, c)
  {
    var tail := LittleEndian(7, 4) + [flag];
    AtSplit(data, c, LittleEndian(|key|, 8), key + tail);
    AtSplit(data, c + 8, key, tail);
    Decode64Encode(|key|);
    hide PlausibleName, LittleEndian, EncodePair;
    DotIsPlausible(key, dot);
  }
}
