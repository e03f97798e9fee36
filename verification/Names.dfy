// Layer numbers in tensor names, "blk.N.rest".
module Names {
  import opened Wrappers
  import opened Bytes

  const DOT: byte := 46
  const PLUS: byte := 43
  const MINUS: byte := 45
  const BLK: seq<byte> := [98, 108, 107, 46]

  // Offset of the first dot.
  function FindDot(s: seq<byte>): (r: Option<nat>)
    ensures r.Some? ==> r.value < |s| && s[r.value] == DOT && DOT !in s[..r.value]
    ensures r.None? ==> DOT !in s
  {
    if s == [] then None
    else if s[0] == DOT then Some(0)
    else
      var rest := FindDot(s[1..]);
      if rest.None? then None
      else
        assert s[..rest.value + 1] == [s[0]] + s[1..][..rest.value];
        Some(rest.value + 1)
  }

  // The text between "blk." and the next dot.
  function LayerText(name: seq<byte>): (r: Option<seq<byte>>) {
    if BLK <= name && FindDot(name[4..]).Some? then Some(name[4..][..FindDot(name[4..]).value]) else None
  }

  predicate AllDigits(s: seq<byte>) {
    forall i :: 0 <= i < |s| ==> 48 <= s[i] <= 57
  }

  function Decimal(s: seq<byte>): nat
    requires AllDigits(s)
  {
    if s == [] then 0 else 10 * Decimal(s[..|s| - 1]) + (s[|s| - 1] - 48)
  }

  // str::parse::<u32>: an optional plus sign, then digits.
  function ParseU32(s: seq<byte>): Option<u32> {
    var digits := if s != [] && s[0] == PLUS then s[1..] else s;
    if digits != [] && AllDigits(digits) && Decimal(digits) < U32_LIMIT then Some(Decimal(digits)) else None
  }

  const I32_LIMIT: int := 0x8000_0000

  // str::parse::<i32>: an optional sign, then digits.
  function ParseI32(s: seq<byte>): Option<int> {
    var negative := s != [] && s[0] == MINUS;
    var digits := if negative || (s != [] && s[0] == PLUS) then s[1..] else s;
    if digits == [] || !AllDigits(digits) then None
    else
      var n: int := Decimal(digits);
      if negative && n <= I32_LIMIT then Some(-n)
      else if !negative && n < I32_LIMIT then Some(n)
      else None
  }

  // get_layer_id
  function LayerId(name: seq<byte>): Option<u32> {
    var text := LayerText(name);
    if text.None? then None else ParseU32(text.value)
  }

  // ---------------------------------------------------------------------------
  // What the readers read
  // ---------------------------------------------------------------------------

  // n in decimal, without leading zeros.
  function Digits(n: nat): (s: seq<byte>)
    ensures s != []
  {
    if n < 10 then [48 + n] else Digits(n / 10) + [48 + n % 10]
  }

  function ZeroDigits(n: nat): (s: seq<byte>)
    ensures |s| == n && forall i :: 0 <= i < n ==> s[i] == 48
  {
    seq(n, _ => 48)
  }

  lemma {:induction false} DecimalOfDigits(n: nat)
    ensures AllDigits(Digits(n)) && Decimal(Digits(n)) == n
  {
    if n < 10 {
      assert [48 + n][..0] == [];
    } else {
      DecimalOfDigits(n / 10);
      assert Digits(n)[..|Digits(n)| - 1] == Digits(n / 10);
    }
  }

  lemma {:induction false} DecimalOfPadded(zeros: nat, n: nat, k: nat)
    requires k <= |Digits(n)|
    ensures AllDigits(Digits(n)) && AllDigits(ZeroDigits(zeros) + Digits(n)[..k])
    ensures Decimal(ZeroDigits(zeros) + Digits(n)[..k]) == Decimal(Digits(n)[..k])
    decreases k, zeros
  {
    DecimalOfDigits(n);
    var s := ZeroDigits(zeros) + Digits(n)[..k];
    if k > 0 {
      DecimalOfPadded(zeros, n, k - 1);
      assert s[..|s| - 1] == ZeroDigits(zeros) + Digits(n)[..k - 1];
      assert Digits(n)[..k][..k - 1] == Digits(n)[..k - 1];
    } else {
      assert s == ZeroDigits(zeros) && Digits(n)[..0] == [];
      if zeros > 0 {
        DecimalOfPadded(zeros - 1, n, 0);
        assert s[..zeros - 1] == ZeroDigits(zeros - 1) + Digits(n)[..0];
      }
    }
  }

  lemma DigitsSnoc(m: nat, d: nat)
    requires m > 0 && d < 10
    ensures Digits(10 * m + d) == Digits(m) + [48 + d]
  {
    assert (10 * m + d) / 10 == m && (10 * m + d) % 10 == d;
  }

  lemma DecimalSnoc(init: seq<byte>, last: byte)
    requires AllDigits(init) && 48 <= last <= 57
    ensures AllDigits(init + [last]) && Decimal(init + [last]) == 10 * Decimal(init) + (last - 48)
  {
    assert (init + [last])[..|init|] == init;
  }

  lemma ZeroDigitsSnoc(n: nat)
    ensures ZeroDigits(n) + [48] == ZeroDigits(n + 1)
  {
  }

  // Digits that read as n are the digits of n behind zeros.
  lemma {:induction false} DecimalIsPadded(s: seq<byte>) returns (zeros: nat)
    requires s != [] && AllDigits(s)
    ensures s == ZeroDigits(zeros) + Digits(Decimal(s))
  {
    var init, last := s[..|s| - 1], s[|s| - 1];
    assert s == init + [last] && AllDigits(init);
    hide *;
    if init == [] {
      zeros := 0;
      OneDigit(last);
    } else {
      zeros := DecimalIsPadded(init);
      zeros := PaddedSnoc(init, last, zeros);
    }
  }

  lemma OneDigit(d: byte)
    requires 48 <= d <= 57
    ensures AllDigits([] + [d]) && [] + [d] == ZeroDigits(0) + Digits(Decimal([] + [d]))
  {
    assert ([] + [d])[..0] == [];
  }

  lemma PaddedSnoc(init: seq<byte>, last: byte, before: nat) returns (zeros: nat)
    requires AllDigits(init) && 48 <= last <= 57 && init == ZeroDigits(before) + Digits(Decimal(init))
    ensures AllDigits(init + [last]) && init + [last] == ZeroDigits(zeros) + Digits(Decimal(init + [last]))
  {
    var m := Decimal(init);
    DecimalSnoc(init, last);
    hide Decimal, ZeroDigits;
    if m == 0 {
      zeros := before + 1;
      ZeroDigitsSnoc(before);
    } else {
      zeros := before;
      DigitsSnoc(m, last - 48);
      hide Digits;
      assert (ZeroDigits(before) + Digits(m)) + [last] == ZeroDigits(before) + (Digits(m) + [last]);
    }
  }

  // Decimal text for n: the digits of n, perhaps behind zeros.
  ghost predicate Spells(s: seq<byte>, n: nat) {
    exists zeros: nat :: s == ZeroDigits(zeros) + Digits(n)
  }

  lemma SpellsExactly(s: seq<byte>, n: nat)
    ensures Spells(s, n) <==> s != [] && AllDigits(s) && Decimal(s) == n
  {
    if s != [] && AllDigits(s) {
      var zeros := DecimalIsPadded(s);
    }
    if Spells(s, n) {
      var zeros: nat :| s == ZeroDigits(zeros) + Digits(n);
      DecimalOfDigits(n);
      DecimalOfPadded(zeros, n, |Digits(n)|);
      assert Digits(n)[..|Digits(n)|] == Digits(n);
    }
  }

  // With a plus sign or without.
  ghost predicate SpellsUnsigned(s: seq<byte>, n: nat) {
    Spells(s, n) || (s != [] && s[0] == 43 && Spells(s[1..], n))
  }

  // Text that reads as a u32: decimal text for a number below 2^32.
  lemma ParseU32Exactly(s: seq<byte>, n: nat)
    ensures ParseU32(s) == Some(n) <==> n < 0x1_0000_0000 && SpellsUnsigned(s, n)
  {
    hide Spells;
    SpellsExactly(s, n);
    if s != [] {
      SpellsExactly(s[1..], n);
    }
  }

  // Text that reads as an i32: a number below 2^31, or a minus sign and a number up to 2^31.
  lemma ParseI32Exactly(s: seq<byte>, v: int)
    ensures ParseI32(s) == Some(v)
       <==> || (0 <= v < 0x8000_0000 && SpellsUnsigned(s, v))
            || (-0x8000_0000 <= v <= 0 && s != [] && s[0] == 45 && Spells(s[1..], -v))
  {
    hide Spells;
    if v >= 0 {
      SpellsExactly(s, v);
    }
    if s != [] && v >= 0 {
      SpellsExactly(s[1..], v);
    }
    if s != [] && v <= 0 {
      SpellsExactly(s[1..], -v);
    }
  }

  // "blk.", the text, a dot, and whatever follows.
  function Framed(text: seq<byte>, rest: seq<byte>): seq<byte> {
    [98, 108, 107, 46] + (text + ([46] + rest))
  }

  lemma SkipToDot(s: seq<byte>)
    requires s != [] && s[0] != 46 && FindDot(s[1..]).Some?
    ensures FindDot(s) == Some(FindDot(s[1..]).value + 1)
  {
  }

  lemma {:induction false} FirstDot(text: seq<byte>, rest: seq<byte>)
    requires 46 !in text
    ensures FindDot(text + ([46] + rest)) == Some(|text|)
    decreases |text|
  {
    var s := text + ([46] + rest);
    if text != [] {
      assert s[1..] == text[1..] + ([46] + rest);
      hide FindDot;
      FirstDot(text[1..], rest);
      SkipToDot(s);
    } else {
      assert s[0] == 46;
    }
  }

  lemma FramedReads(text: seq<byte>, rest: seq<byte>)
    requires 46 !in text
    ensures LayerText(Framed(text, rest)) == Some(text)
  {
    var name := Framed(text, rest);
    FirstDot(text, rest);
    assert name[..4] == BLK && name[4..] == text + ([46] + rest);
  }

  // A layer text is what stands between "blk." and the next dot.
  lemma LayerTextFramed(name: seq<byte>) returns (rest: seq<byte>)
    requires LayerText(name).Some?
    ensures name == Framed(LayerText(name).value, rest) && 46 !in LayerText(name).value
  {
    var tail, text := name[4..], LayerText(name).value;
    rest := tail[|text| + 1..];
    assert tail == text + ([46] + rest);
    assert name == name[..4] + tail;
  }

  // A tensor belongs to layer n exactly when its name has, between "blk." and the next dot, text
  // that reads as n.
  lemma LayerIdExactly(name: seq<byte>, n: nat)
    ensures LayerId(name) == Some(n)
       <==> n < 0x1_0000_0000 && exists text, rest :: name == Framed(text, rest) && SpellsUnsigned(text, n)
  {
    hide Spells, Framed, LayerText, ParseU32, SpellsUnsigned;
    if LayerId(name) == Some(n) {
      var rest := LayerTextFramed(name);
      ParseU32Exactly(LayerText(name).value, n);
      assert name == Framed(LayerText(name).value, rest);
    }
    if n < 0x1_0000_0000 {
      forall text, rest | name == Framed(text, rest) && SpellsUnsigned(text, n)
        ensures LayerId(name) == Some(n)
      {
        UnsignedHasNoDot(text, n);
        FramedReads(text, rest);
        ParseU32Exactly(text, n);
      }
    }
  }

  lemma UnsignedHasNoDot(s: seq<byte>, n: nat)
    requires SpellsUnsigned(s, n)
    ensures 46 !in s
  {
    if Spells(s, n) {
      SpellsExactly(s, n);
    } else {
      SpellsExactly(s[1..], n);
      assert s == [s[0]] + s[1..];
    }
  }

  // The names llama.cpp gives: "blk.N." and more, N in decimal.
  lemma NamedLayer(n: u32, rest: seq<byte>)
    ensures LayerId([98, 108, 107, 46] + (Digits(n) + ([46] + rest))) == Some(n)
  {
    assert Digits(n) == ZeroDigits(0) + Digits(n);
    assert Spells(Digits(n), n);
    LayerIdExactly(Framed(Digits(n), rest), n);
  }
}
