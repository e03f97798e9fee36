// Machine integers, little-endian byte strings and alignment.
module Bytes {

  const U32_LIMIT: int := 0x1_0000_0000
  const U64_LIMIT: int := 0x1_0000_0000_0000_0000
  // A Rust slice never holds more than isize::MAX bytes.
  const SLICE_LIMIT: int := 0x8000_0000_0000_0000

  type byte = b: int | 0 <= b < 0x100
  type u32 = n: int | 0 <= n < U32_LIMIT
  type u64 = n: int | 0 <= n < U64_LIMIT

  // ---------------------------------------------------------------------------
  // Little-endian encoding
  // ---------------------------------------------------------------------------

  // The n low-order bytes of x, least significant first.
  function LittleEndian(x: nat, n: nat): (s: seq<byte>)
    ensures |s| == n
  {
    if n == 0 then [] else [x % 0x100] + LittleEndian(x / 0x100, n - 1)
  }

  function FromLittleEndian(s: seq<byte>): nat
  {
    if s == [] then 0 else s[0] + 0x100 * FromLittleEndian(s[1..])
  }

  function Pow256(n: nat): nat
  {
    if n == 0 then 1 else 0x100 * Pow256(n - 1)
  }

  lemma {:induction false} DecodeEncode(x: nat, n: nat)
    requires x < Pow256(n)
    ensures FromLittleEndian(LittleEndian(x, n)) == x
  {
    if n > 0 {
      DecodeEncode(x / 0x100, n - 1);
      assert LittleEndian(x, n)[1..] == LittleEndian(x / 0x100, n - 1);
    }
  }

  lemma {:induction false} EncodeDecode(s: seq<byte>)
    ensures FromLittleEndian(s) < Pow256(|s|)
    ensures LittleEndian(FromLittleEndian(s), |s|) == s
  {
    if s != [] {
      var rest := FromLittleEndian(s[1..]);
      EncodeDecode(s[1..]);
      assert LittleEndian(s[0] + 0x100 * rest, |s|) == [s[0]] + LittleEndian(rest, |s| - 1);
      assert s == [s[0]] + s[1..];
    }
  }

  lemma Pow256Values()
    ensures Pow256(4) == U32_LIMIT
    ensures Pow256(8) == U64_LIMIT
  {
    assert Pow256(2) == 0x1_0000;
    assert Pow256(4) == 0x1_0000 * Pow256(2);
    assert Pow256(6) == 0x1_0000 * Pow256(4);
    assert Pow256(8) == 0x1_0000 * Pow256(6);
  }

  function Decode32(s: seq<byte>): (n: u32)
    requires |s| == 4
  {
    EncodeDecode(s);
    Pow256Values();
    FromLittleEndian(s)
  }

  function Decode64(s: seq<byte>): (n: u64)
    requires |s| == 8
  {
    EncodeDecode(s);
    Pow256Values();
    FromLittleEndian(s)
  }

  lemma Decode32Encode(x: u32)
    ensures Decode32(LittleEndian(x, 4)) == x
  {
    Pow256Values();
    DecodeEncode(x, 4);
  }

  lemma Decode64Encode(x: u64)
    ensures Decode64(LittleEndian(x, 8)) == x
  {
    Pow256Values();
    DecodeEncode(x, 8);
  }

  // ---------------------------------------------------------------------------
  // Text
  // ---------------------------------------------------------------------------

  // ASCII text as bytes.
  function Ascii(text: string): (s: seq<byte>)
    requires forall i :: 0 <= i < |text| ==> text[i] < '\U{80}'
    ensures |s| == |text| && forall i :: 0 <= i < |text| ==> s[i] == text[i] as int
  {
    seq(|text|, i requires 0 <= i < |text| && text[i] < '\U{80}' => text[i] as int)
  }

  // ---------------------------------------------------------------------------
  // Bytes at a position
  // ---------------------------------------------------------------------------

  // data holds the byte string s at position off.
  ghost predicate At(data: seq<byte>, off: nat, s: seq<byte>)
  {
    off + |s| <= |data| && data[off..off + |s|] == s
  }

  lemma AtSelf(data: seq<byte>)
    ensures At(data, 0, data)
  {
  }

  lemma AtSplit(data: seq<byte>, off: nat, a: seq<byte>, b: seq<byte>)
    requires At(data, off, a + b)
    ensures At(data, off, a) && At(data, off + |a|, b)
  {
    assert a == (a + b)[..|a|] == data[off..off + |a|];
    assert b == (a + b)[|a|..] == data[off + |a|..off + |a| + |b|];
  }

  lemma AtJoin(data: seq<byte>, off: nat, a: seq<byte>, b: seq<byte>)
    requires At(data, off, a) && At(data, off + |a|, b)
    ensures At(data, off, a + b)
  {
    assert data[off..off + |a + b|] == data[off..off + |a|] + data[off + |a|..off + |a| + |b|];
  }

  // The two byte strings agree on positions lo..hi, and both reach that far.
  ghost predicate Agree(a: seq<byte>, b: seq<byte>, lo: nat, hi: nat)
  {
    hi <= |a| && hi <= |b| && forall i :: lo <= i < hi ==> a[i] == b[i]
  }

  // ---------------------------------------------------------------------------
  // Alignment
  // ---------------------------------------------------------------------------

  // Every caller in the splitter aligns to 32.
  const ALIGNMENT: nat := 32

  function AlignUp(x: nat): (y: nat)
  {
    (x + ALIGNMENT - 1) / ALIGNMENT * ALIGNMENT
  }

  // The result is the only aligned position in x .. x + 31.
  lemma AlignUpMeaning(x: nat)
    ensures AlignUp(x) % ALIGNMENT == 0
    ensures x <= AlignUp(x) < x + ALIGNMENT
    ensures forall y: nat :: y % ALIGNMENT == 0 && x <= y < x + ALIGNMENT ==> y == AlignUp(x)
  {
  }

  // The bit-mask form of the source, (x + 31) & !31, meets the same description on machine words.
  lemma MaskAligns(x: bv64)
    requires x <= 0xFFFF_FFFF_FFFF_FFE0
    ensures var y := (x + 31) & !31; y & 31 == 0 && x <= y && y - x < 32
  {
  }

  // x & y, bit by bit.
  function BitAnd(x: nat, y: nat): nat {
    if x == 0 || y == 0 then 0 else 2 * BitAnd(x / 2, y / 2) + (if x % 2 == 1 && y % 2 == 1 then 1 else 0)
  }

  function Pow2(n: nat): (p: nat)
    ensures p > 0
  {
    if n == 0 then 1 else 2 * Pow2(n - 1)
  }

  // A mask of ones keeps every bit.
  lemma {:induction false} AllOnesKeep(x: nat, n: nat)
    requires x < Pow2(n)
    ensures BitAnd(x, Pow2(n) - 1) == x
    decreases n
  {
    if x != 0 {
      assert (Pow2(n) - 1) / 2 == Pow2(n - 1) - 1;
      AllOnesKeep(x / 2, n - 1);
    }
  }

  // A zero at the low end of a mask clears a bit.
  lemma LowZeroClears(x: nat, m: nat)
    ensures BitAnd(x, 2 * m) == 2 * BitAnd(x / 2, m)
  {
    assert (2 * m) / 2 == m && (2 * m) % 2 == 0;
  }

  lemma FiveLowZerosClear(x: nat, m: nat)
    ensures BitAnd(x, 32 * m) == 32 * BitAnd(x / 32, m)
  {
    hide BitAnd;
    LowZeroClears(x, 16 * m);
    LowZeroClears(x / 2, 8 * m);
    LowZeroClears(x / 2 / 2, 4 * m);
    LowZeroClears(x / 2 / 2 / 2, 2 * m);
    LowZeroClears(x / 2 / 2 / 2 / 2, m);
    assert x / 2 / 2 / 2 / 2 / 2 == x / 32;
  }

  lemma Pow2Values()
    ensures Pow2(59) == U64_LIMIT / ALIGNMENT
  {
    assert Pow2(10) == 0x400;
    assert Pow2(20) == 0x10_0000;
    assert Pow2(30) == 0x4000_0000;
    assert Pow2(40) == 0x100_0000_0000;
    assert Pow2(50) == 0x4_0000_0000_0000;
  }

  // On 64-bit words without overflow, the source's mask is AlignUp.
  lemma MaskIsAlignUp(x: nat)
    requires x + ALIGNMENT - 1 < U64_LIMIT
    ensures BitAnd(x + ALIGNMENT - 1, U64_LIMIT - ALIGNMENT) == AlignUp(x)
  {
    hide BitAnd, Pow2;
    FiveLowZerosClear(x + ALIGNMENT - 1, U64_LIMIT / ALIGNMENT - 1);
    Pow2Values();
    AllOnesKeep((x + ALIGNMENT - 1) / ALIGNMENT, 59);
  }

  function Zeros(n: nat): (s: seq<byte>)
    ensures |s| == n
    ensures forall i :: 0 <= i < n ==> s[i] == 0
  {
    seq(n, _ => 0)
  }
}
