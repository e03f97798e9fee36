// Reading integers and text out of the mapped file. The source advances an
// `offset: &mut usize`; here each read returns the value with the new offset.
module Reader {
  import opened Wrappers
  import opened Bytes

  // The ways a run of the splitter can end without a result. Overflow stands for an
  // integer operation that leaves its Rust type, SliceOutOfRange for an indexing panic.
  datatype Error =
    | TooSmall
    | BadMagic
    | EndOfFile
    | NameOverflow
    | BadUtf8
    | TypeCount
    | UnknownType(t: nat)
    | NoLayersPerShard
    | Overflow
    | SliceOutOfRange

  // *offset += k
  function Advance(off: nat, k: nat): (r: Result<nat, Error>)
    ensures r.Success? <==> off + k <= 0xFFFF_FFFF_FFFF_FFFF
    ensures r == if r.Success? then Success(off + k) else Failure(Overflow)
  {
    if off + k < U64_LIMIT then Success(off + k) else Failure(Overflow)
  }

  function ReadU32(data: seq<byte>, off: nat): (r: Result<(u32, nat), Error>)
    ensures r.Success? ==> r.value.1 == off + 4 <= |data|
    ensures |data| < off + 4 < U64_LIMIT ==> r == Failure(EndOfFile)
  {
    var end :- Advance(off, 4);
    if end > |data| then Failure(EndOfFile) else Success((Decode32(data[off..end]), end))
  }

  function ReadU64(data: seq<byte>, off: nat): (r: Result<(u64, nat), Error>)
    ensures r.Success? ==> r.value.1 == off + 8 <= |data|
    ensures |data| < off + 8 < U64_LIMIT ==> r == Failure(EndOfFile)
  {
    var end :- Advance(off, 8);
    if end > |data| then Failure(EndOfFile) else Success((Decode64(data[off..end]), end))
  }

  lemma ReadU32At(data: seq<byte>, off: nat, x: u32)
    requires |data| < SLICE_LIMIT && At(data, off, LittleEndian(x, 4))
    ensures ReadU32(data, off) == Success((x, off + 4))
  {
    Decode32Encode(x);
  }

  lemma ReadU64At(data: seq<byte>, off: nat, x: u64)
    requires |data| < SLICE_LIMIT && At(data, off, LittleEndian(x, 8))
    ensures ReadU64(data, off) == Success((x, off + 8))
  {
    Decode64Encode(x);
  }

  // A successful read is a read of that integer's own encoding.
  lemma ReadU32Bytes(data: seq<byte>, off: nat)
    requires ReadU32(data, off).Success?
    ensures At(data, off, LittleEndian(ReadU32(data, off).value.0, 4))
  {
    EncodeDecode(data[off..off + 4]);
  }

  lemma ReadU64Bytes(data: seq<byte>, off: nat)
    requires ReadU64(data, off).Success?
    ensures At(data, off, LittleEndian(ReadU64(data, off).value.0, 8))
  {
    EncodeDecode(data[off..off + 8]);
  }

  lemma ReadU32Agree(a: seq<byte>, b: seq<byte>, off: nat, hi: nat)
    requires Agree(a, b, off, hi) && off + 4 <= hi
    ensures ReadU32(a, off) == ReadU32(b, off)
  {
    assert a[off..off + 4] == b[off..off + 4];
  }

  lemma ReadU64Agree(a: seq<byte>, b: seq<byte>, off: nat, hi: nat)
    requires Agree(a, b, off, hi) && off + 8 <= hi
    ensures ReadU64(a, off) == ReadU64(b, off)
  {
    assert a[off..off + 8] == b[off..off + 8];
  }

  // ---------------------------------------------------------------------------
  // UTF-8, as String::from_utf8 accepts it (RFC 3629, section 4)
  // ---------------------------------------------------------------------------

  predicate Continuation(b: byte) {
    0x80 <= b <= 0xBF
  }

  // The length of the well-formed character s starts with, 0 if there is none.
  function CharLength(s: seq<byte>): (n: nat)
    requires s != []
    ensures n <= |s|
  {
    var b := s[0];
    if b < 0x80 then 1
    else if 0xC2 <= b <= 0xDF then
      if |s| >= 2 && Continuation(s[1]) then 2 else 0
    else if 0xE0 <= b <= 0xEF then
      if |s| >= 3 && Continuation(s[1]) && Continuation(s[2])
         && (b == 0xE0 ==> s[1] >= 0xA0) && (b == 0xED ==> s[1] <= 0x9F) then 3 else 0
    else if 0xF0 <= b <= 0xF4 then
      if |s| >= 4 && Continuation(s[1]) && Continuation(s[2]) && Continuation(s[3])
         && (b == 0xF0 ==> s[1] >= 0x90) && (b == 0xF4 ==> s[1] <= 0x8F) then 4 else 0
    else 0
  }

  predicate ValidUtf8(s: seq<byte>) {
    s == [] || (CharLength(s) > 0 && ValidUtf8(s[CharLength(s)..]))
  }

  // A character: every code point but the surrogates.
  predicate ScalarValue(c: int) {
    0 <= c < 0xD800 || 0xE000 <= c < 0x11_0000
  }

  // Its encoding, with six bits in every byte but the first.
  function Utf8Char(c: int): (s: seq<byte>)
    requires ScalarValue(c)
  {
    if c < 0x80 then [c]
    else if c < 0x800 then [0xC0 + c / 0x40, 0x80 + c % 0x40]
    else if c < 0x1_0000 then [0xE0 + c / 0x40 / 0x40, 0x80 + c / 0x40 % 0x40, 0x80 + c % 0x40]
    else [0xF0 + c / 0x40 / 0x40 / 0x40, 0x80 + c / 0x40 / 0x40 % 0x40, 0x80 + c / 0x40 % 0x40, 0x80 + c % 0x40]
  }

  function Utf8(cs: seq<int>): seq<byte>
    requires forall i :: 0 <= i < |cs| ==> ScalarValue(cs[i])
  {
    if cs == [] then [] else Utf8Char(cs[0]) + Utf8(cs[1..])
  }

  lemma Utf8Cons(c: int, rest: seq<int>)
    requires ScalarValue(c) && forall i :: 0 <= i < |rest| ==> ScalarValue(rest[i])
    ensures Utf8([c] + rest) == Utf8Char(c) + Utf8(rest)
  {
    hide ScalarValue, Utf8Char;
    assert ([c] + rest)[1..] == rest;
  }

  lemma CharLengthOfChar(c: int, rest: seq<byte>)
    requires ScalarValue(c)
    ensures CharLength(Utf8Char(c) + rest) == |Utf8Char(c)|
  {
  }

  // Six more bits.
  function Shifted(high: int, b: byte): (c: int)
    requires high >= 0 && Continuation(b)
    ensures c / 0x40 == high && 0x80 + c % 0x40 == b && c >= 0
  {
    high * 0x40 + (b as int - 0x80)
  }

  // The character at the front of text that starts with one.
  lemma CharOfLength(s: seq<byte>) returns (c: int)
    requires s != [] && CharLength(s) > 0
    ensures ScalarValue(c) && s[..CharLength(s)] == Utf8Char(c)
  {
    var k := CharLength(s);
    if k == 1 {
      c := s[0];
    } else if k == 2 {
      c := Shifted(s[0] as int - 0xC0, s[1]);
    } else if k == 3 {
      c := Shifted(Shifted(s[0] as int - 0xE0, s[1]), s[2]);
    } else {
      c := Shifted(Shifted(Shifted(s[0] as int - 0xF0, s[1]), s[2]), s[3]);
    }
  }

  lemma FirstChar(s: seq<byte>) returns (c: int, rest: seq<byte>)
    requires ValidUtf8(s) && s != []
    ensures ScalarValue(c) && ValidUtf8(rest) && |rest| < |s| && s == Utf8Char(c) + rest
  {
    c := CharOfLength(s);
    rest := s[CharLength(s)..];
    hide CharLength, ScalarValue, Utf8Char;
    assert s == s[..CharLength(s)] + rest;
  }

  lemma {:induction false} CharactersOf(s: seq<byte>) returns (cs: seq<int>)
    requires ValidUtf8(s)
    ensures (forall i :: 0 <= i < |cs| ==> ScalarValue(cs[i])) && s == Utf8(cs)
    decreases |s|
  {
    hide ValidUtf8, ScalarValue, Utf8Char;
    if s == [] {
      cs := [];
    } else {
      var c, rest := FirstChar(s);
      var others := CharactersOf(rest);
      hide Utf8;
      Utf8Cons(c, others);
      cs := [c] + others;
    }
  }

  lemma {:induction false} EncodedIsValid(cs: seq<int>)
    requires forall i :: 0 <= i < |cs| ==> ScalarValue(cs[i])
    ensures ValidUtf8(Utf8(cs))
  {
    if cs != [] {
      var first, rest := Utf8Char(cs[0]), Utf8(cs[1..]);
      EncodedIsValid(cs[1..]);
      CharLengthOfChar(cs[0], rest);
      assert |first| > 0;
      hide CharLength, ScalarValue, Utf8Char;
      assert (first + rest)[|first|..] == rest;
    }
  }

  // Accepted are exactly the encodings of characters.
  lemma ValidUtf8Exactly(s: seq<byte>)
    ensures ValidUtf8(s) <==> exists cs :: (forall i :: 0 <= i < |cs| ==> ScalarValue(cs[i])) && s == Utf8(cs)
  {
    hide ScalarValue, Utf8;
    if ValidUtf8(s) {
      var cs := CharactersOf(s);
    }
    forall cs: seq<int> | (forall i :: 0 <= i < |cs| ==> ScalarValue(cs[i])) && s == Utf8(cs)
      ensures ValidUtf8(s)
    {
      EncodedIsValid(cs);
    }
  }
}
