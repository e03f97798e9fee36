// The metadata section: skipping values, and looking one up by key.
module Metadata {
  import opened Wrappers
  import opened Bytes
  import opened Reader

  const STRING: u32 := 8
  const ARRAY: u32 := 9

  // Bytes occupied by a value of a fixed-size type.
  function ScalarSize(t: nat): Option<nat> {
    if t == 0 || t == 1 || t == 7 then Some(1)
    else if t == 2 || t == 3 then Some(2)
    else if t == 4 || t == 5 || t == 6 then Some(4)
    else if t == 10 || t == 11 || t == 12 then Some(8)
    else None
  }

  function Left(data: seq<byte>, off: nat): nat {
    if off <= |data| then |data| - off else 0
  }

  // Where the value of type t that starts at off ends.
  function ValueEnd(data: seq<byte>, off: nat, t: nat): (r: Result<nat, Error>)
    ensures r.Success? ==> r.value >= off
    decreases Left(data, off), 0
  {
    if ScalarSize(t).Some? then Advance(off, ScalarSize(t).value)
    else if t == STRING then
      var (len, start) :- ReadU64(data, off);
      Advance(start, len)
    else if t == ARRAY then
      var (elementType, o1) :- ReadU32(data, off);
      var (count, o2) :- ReadU64(data, o1);
      ElementsEnd(data, o2, elementType, count)
    else if t == 13 then Failure(TypeCount)
    else Failure(UnknownType(t))
  }

  // Where a run of n values of type t that starts at off ends.
  function ElementsEnd(data: seq<byte>, off: nat, t: nat, n: nat): (r: Result<nat, Error>)
    ensures r.Success? ==> r.value >= off
    decreases Left(data, off), n + 1
  {
    if n == 0 then Success(off)
    else
      var next :- ValueEnd(data, off, t);
      ElementsEnd(data, next, t, n - 1)
  }

  // Where the key-value pair that starts at off ends.
  function PairEnd(data: seq<byte>, off: nat): (r: Result<nat, Error>)
    ensures r.Success? ==> r.value >= off
  {
    var (keyLen, keyStart) :- ReadU64(data, off);
    var keyEnd :- Advance(keyStart, keyLen);
    var (t, valueStart) :- ReadU32(data, keyEnd);
    ValueEnd(data, valueStart, t)
  }

  // Where a run of n key-value pairs that starts at off ends.
  function PairsEnd(data: seq<byte>, off: nat, n: nat): (r: Result<nat, Error>)
    ensures r.Success? ==> r.value >= off
    decreases n
  {
    if n == 0 then Success(off)
    else
      var next :- PairEnd(data, off);
      PairsEnd(data, next, n - 1)
  }

  method SkipValue(data: seq<byte>, offset: nat, valueType: nat) returns (r: Result<nat, Error>)
    ensures r == ValueEnd(data, offset, valueType)
    decreases Left(data, offset)
  {
    if valueType == 0 || valueType == 1 || valueType == 7 {
      r := Advance(offset, 1);
    } else if valueType == 2 || valueType == 3 {
      r := Advance(offset, 2);
    } else if valueType == 4 || valueType == 5 || valueType == 6 {
      r := Advance(offset, 4);
    } else if valueType == 10 || valueType == 11 || valueType == 12 {
      r := Advance(offset, 8);
    } else if valueType == STRING {
      var lenRead :- ReadU64(data, offset);
      var (len, start) := lenRead;
      r := Advance(start, len);
    } else if valueType == ARRAY {
      var typeRead :- ReadU32(data, offset);
      var (elementType, o1) := typeRead;
      var countRead :- ReadU64(data, o1);
      var (arrLen, o2) := countRead;
      var cur := o2;
      for i := 0 to arrLen
        invariant cur >= o2
        invariant ElementsEnd(data, o2, elementType, arrLen)
               == ElementsEnd(data, cur, elementType, arrLen - i)
      {
        cur :- SkipValue(data, cur, elementType);
      }
      r := Success(cur);
    } else if valueType == 13 {
      r := Failure(TypeCount);
    } else {
      r := Failure(UnknownType(valueType));
    }
  }

  method SkipPairs(data: seq<byte>, start: nat, count: nat) returns (r: Result<nat, Error>)
    ensures r == PairsEnd(data, start, count)
  {
    var end := start;
    for i := 0 to count
      invariant PairsEnd(data, start, count) == PairsEnd(data, end, count - i)
    {
      var keyRead :- ReadU64(data, end);
      var (keyLen, keyStart) := keyRead;
      var keyEnd :- Advance(keyStart, keyLen);
      var typeRead :- ReadU32(data, keyEnd);
      var (t, valueStart) := typeRead;
      end :- SkipValue(data, valueStart, t);
    }
    r := Success(end);
  }

  // ---------------------------------------------------------------------------
  // Skipping depends on the skipped bytes alone
  // ---------------------------------------------------------------------------

  lemma {:induction false} ValueEndAgree(a: seq<byte>, b: seq<byte>, off: nat, t: nat, hi: nat)
    requires Agree(a, b, off, hi)
    requires ValueEnd(a, off, t).Success? && ValueEnd(a, off, t).value <= hi
    ensures ValueEnd(b, off, t) == ValueEnd(a, off, t)
    decreases Left(a, off), 0
  {
    if t == STRING {
      ReadU64Agree(a, b, off, hi);
    } else if t == ARRAY {
      var (elementType, o1) := ReadU32(a, off).value;
      var (count, o2) := ReadU64(a, o1).value;
      ReadU32Agree(a, b, off, hi);
      ReadU64Agree(a, b, o1, hi);
      ElementsEndAgree(a, b, o2, elementType, count, hi);
    }
  }

  lemma {:induction false} ElementsEndAgree(a: seq<byte>, b: seq<byte>, off: nat, t: nat, n: nat, hi: nat)
    requires Agree(a, b, off, hi)
    requires ElementsEnd(a, off, t, n).Success? && ElementsEnd(a, off, t, n).value <= hi
    ensures ElementsEnd(b, off, t, n) == ElementsEnd(a, off, t, n)
    decreases Left(a, off), n + 1
  {
    if n > 0 {
      var next := ValueEnd(a, off, t).value;
      ValueEndAgree(a, b, off, t, hi);
      ElementsEndAgree(a, b, next, t, n - 1, hi);
    }
  }

  lemma PairEndAgree(a: seq<byte>, b: seq<byte>, off: nat, hi: nat)
    requires Agree(a, b, off, hi)
    requires PairEnd(a, off).Success? && PairEnd(a, off).value <= hi
    ensures PairEnd(b, off) == PairEnd(a, off)
  {
    var (keyLen, keyStart) := ReadU64(a, off).value;
    var (t, valueStart) := ReadU32(a, keyStart + keyLen).value;
    ReadU64Agree(a, b, off, hi);
    ReadU32Agree(a, b, keyStart + keyLen, hi);
    ValueEndAgree(a, b, valueStart, t, hi);
  }

  // A raw copy of the metadata at the same position skips to the same place.
  lemma {:induction false} PairsEndAgree(a: seq<byte>, b: seq<byte>, off: nat, n: nat, hi: nat)
    requires Agree(a, b, off, hi)
    requires PairsEnd(a, off, n).Success? && PairsEnd(a, off, n).value <= hi
    ensures PairsEnd(b, off, n) == PairsEnd(a, off, n)
    decreases n
  {
    hide PairEnd;
    if n > 0 {
      PairEndAgree(a, b, off, hi);
      PairsEndAgree(a, b, PairEnd(a, off).value, n - 1, hi);
    }
  }

  // ---------------------------------------------------------------------------
  // Values and their encoding
  // ---------------------------------------------------------------------------

  // The types of fixed size.
  datatype Kind = Uint8 | Int8 | Uint16 | Int16 | Uint32 | Int32 | Float32 | Bool | Uint64 | Int64 | Float64

  // Their codes and widths in the GGUF specification, which skip_value has to know.
  function KindCode(k: Kind): u32 {
    match k
    case Uint8 => 0 case Int8 => 1 case Uint16 => 2 case Int16 => 3 case Uint32 => 4 case Int32 => 5
    case Float32 => 6 case Bool => 7 case Uint64 => 10 case Int64 => 11 case Float64 => 12
  }

  function Width(k: Kind): nat {
    match k
    case Uint8 | Int8 | Bool => 1
    case Uint16 | Int16 => 2
    case Uint32 | Int32 | Float32 => 4
    case Uint64 | Int64 | Float64 => 8
  }

  datatype Value =
    | Scalar(kind: Kind, payload: seq<byte>)
    | Str(text: seq<byte>)
    | Array(elementType: u32, elements: seq<Value>)

  datatype Pair = Pair(key: seq<byte>, value: Value)

  function TypeOf(v: Value): u32 {
    match v
    case Scalar(k, _) => KindCode(k)
    case Str(_) => STRING
    case Array(_, _) => ARRAY
  }

  predicate WellFormed(v: Value)
    decreases v, 0
  {
    match v
    case Scalar(k, payload) => |payload| == Width(k)
    case Str(text) => |text| < U64_LIMIT
    case Array(t, elements) => |elements| < U64_LIMIT && AllWellFormed(t, elements)
  }

  predicate AllWellFormed(t: u32, vs: seq<Value>)
    decreases vs, 1
  {
    vs == [] || (WellFormed(vs[0]) && TypeOf(vs[0]) == t && AllWellFormed(t, vs[1..]))
  }

  function Encode(v: Value): seq<byte>
    decreases v, 0
  {
    match v
    case Scalar(_, payload) => payload
    case Str(text) => LittleEndian(|text|, 8) + text
    case Array(t, elements) => LittleEndian(t, 4) + (LittleEndian(|elements|, 8) + EncodeAll(elements))
  }

  function EncodeAll(vs: seq<Value>): seq<byte>
    decreases vs, 1
  {
    if vs == [] then [] else Encode(vs[0]) + EncodeAll(vs[1..])
  }

  function EncodePair(p: Pair): seq<byte> {
    LittleEndian(|p.key|, 8) + (p.key + (LittleEndian(TypeOf(p.value), 4) + Encode(p.value)))
  }

  function EncodePairs(ps: seq<Pair>): seq<byte> {
    if ps == [] then [] else EncodePair(ps[0]) + EncodePairs(ps[1..])
  }

  lemma {:induction false} EncodePairsSnoc(ps: seq<Pair>, p: Pair)
    ensures EncodePairs(ps + [p]) == EncodePairs(ps) + EncodePair(p)
  {
    hide EncodePair;
    if ps == [] {
      assert EncodePairs([p]) == EncodePair(p) + [] && [] + EncodePair(p) == EncodePair(p) && ps + [p] == [p];
    } else {
      EncodePairsSnoc(ps[1..], p);
      assert (ps + [p])[1..] == ps[1..] + [p];
      assert EncodePair(ps[0]) + (EncodePairs(ps[1..]) + EncodePair(p))
          == EncodePair(ps[0]) + EncodePairs(ps[1..]) + EncodePair(p);
    }
  }

  predicate PairWellFormed(p: Pair) {
    |p.key| < U64_LIMIT && WellFormed(p.value)
  }

  predicate PairsWellFormed(ps: seq<Pair>) {
    ps == [] || (PairWellFormed(ps[0]) && PairsWellFormed(ps[1..]))
  }

  lemma StringEnd(data: seq<byte>, off: nat, len: nat)
    requires ReadU64(data, off) == Success((len, off + 8)) && off + 8 + len < U64_LIMIT
    ensures ValueEnd(data, off, STRING) == Success(off + 8 + len)
  {
    hide ReadU64;
  }

  lemma ArrayEnd(data: seq<byte>, off: nat, t: u32, count: u64)
    requires ReadU32(data, off) == Success((t, off + 4))
    requires ReadU64(data, off + 4) == Success((count, off + 12))
    ensures ValueEnd(data, off, ARRAY) == ElementsEnd(data, off + 12, t, count)
  {
    hide ReadU32, ReadU64, ElementsEnd;
  }

  lemma EncodedLength(data: seq<byte>, off: nat, s: seq<byte>)
    requires At(data, off, s)
    ensures off + |s| <= |data|
  {
  }

  // Skipping the encoding of a value, however deeply nested, stops exactly at its end.
  lemma {:induction false} SkipInvertsEncode(data: seq<byte>, off: nat, v: Value)
    requires |data| < SLICE_LIMIT && WellFormed(v) && At(data, off, Encode(v))
    ensures ValueEnd(data, off, TypeOf(v)) == Success(off + |Encode(v)|)
    decreases v, 0
  {
    EncodedLength(data, off, Encode(v));
    match v
    case Scalar(_, _) =>
      hide At;
    case Str(text) =>
      hide At, ValueEnd, ReadU64, LittleEndian;
      AtSplit(data, off, LittleEndian(|text|, 8), text);
      ReadU64At(data, off, |text|);
      StringEnd(data, off, |text|);
    case Array(t, elements) =>
      hide At, ValueEnd, ReadU64, ReadU32, LittleEndian, ElementsEnd;
      var body := EncodeAll(elements);
      AtSplit(data, off, LittleEndian(t, 4), LittleEndian(|elements|, 8) + body);
      AtSplit(data, off + 4, LittleEndian(|elements|, 8), body);
      ReadU32At(data, off, t);
      ReadU64At(data, off + 4, |elements|);
      SkipInvertsEncodeAll(data, off + 12, t, elements);
      ArrayEnd(data, off, t, |elements|);
  }

  lemma {:induction false} SkipInvertsEncodeAll(data: seq<byte>, off: nat, t: u32, vs: seq<Value>)
    requires |data| < SLICE_LIMIT && AllWellFormed(t, vs) && At(data, off, EncodeAll(vs))
    ensures ElementsEnd(data, off, t, |vs|) == Success(off + |EncodeAll(vs)|)
    decreases vs, 1
  {
    hide At, ValueEnd, Encode;
    if vs != [] {
      AtSplit(data, off, Encode(vs[0]), EncodeAll(vs[1..]));
      SkipInvertsEncode(data, off, vs[0]);
      SkipInvertsEncodeAll(data, off + |Encode(vs[0])|, t, vs[1..]);
    }
  }

  lemma SliceSplit(data: seq<byte>, lo: nat, mid: nat, hi: nat)
    requires lo <= mid <= hi <= |data|
    ensures data[lo..hi] == data[lo..mid] + data[mid..hi]
  {
  }

  // skip_value knows every kind and its width, and no other code for a type of fixed size.
  lemma KindOf(t: u32) returns (k: Kind)
    requires ScalarSize(t).Some?
    ensures KindCode(k) == t && ScalarSize(t) == Some(Width(k))
  {
    k := match t
         case 0 => Uint8 case 1 => Int8 case 2 => Uint16 case 3 => Int16 case 4 => Uint32 case 5 => Int32
         case 6 => Float32 case 7 => Bool case 10 => Uint64 case 11 => Int64 case _ => Float64;
  }

  // What each type code makes skip_value do: one, two, four or eight bytes, a length and that many
  // bytes, a run of elements, or an error. No other code is accepted.
  lemma CodesSkipped(data: seq<byte>, off: nat, len: u64)
    requires off + 8 + len < U64_LIMIT
    ensures forall t :: t in {0, 1, 7} ==> ValueEnd(data, off, t) == Success(off + 1)
    ensures forall t :: t in {2, 3} ==> ValueEnd(data, off, t) == Success(off + 2)
    ensures forall t :: t in {4, 5, 6} ==> ValueEnd(data, off, t) == Success(off + 4)
    ensures forall t :: t in {10, 11, 12} ==> ValueEnd(data, off, t) == Success(off + 8)
    ensures At(data, off, LittleEndian(len, 8)) && |data| < SLICE_LIMIT ==>
              ValueEnd(data, off, 8) == Success(off + 8 + len)
    ensures ValueEnd(data, off, 13) == Failure(TypeCount)
    ensures forall t: nat :: t > 13 ==> ValueEnd(data, off, t) == Failure(UnknownType(t))
  {
    hide At, LittleEndian, ElementsEnd;
    if At(data, off, LittleEndian(len, 8)) && |data| < SLICE_LIMIT {
      ReadU64At(data, off, len);
    }
  }

  // An array of type code 9 holds a type code, a count and the elements.
  lemma {:induction false} NumbersSkipped(data: seq<byte>, off: nat, n: nat)
    requires off + 4 * n < U64_LIMIT
    ensures ElementsEnd(data, off, 4, n) == Success(off + 4 * n)
    decreases n
  {
    if n > 0 {
      NumbersSkipped(data, off + 4, n - 1);
    }
  }

  lemma NumberArraySkipped(data: seq<byte>, off: nat, n: u64)
    requires |data| < SLICE_LIMIT && off + 12 + 4 * n < U64_LIMIT
    requires At(data, off, LittleEndian(4, 4) + LittleEndian(n, 8))
    ensures ValueEnd(data, off, 9) == Success(off + 12 + 4 * n)
  {
    hide At, LittleEndian, ReadU32, ReadU64, ElementsEnd;
    AtSplit(data, off, LittleEndian(4, 4), LittleEndian(n, 8));
    ReadU32At(data, off, 4);
    ReadU64At(data, off + 4, n);
    NumbersSkipped(data, off + 12, n);
  }

  // Pairs in bytes: a number, a text and a list of two numbers, each under the key "k".
  lemma NumberPairBytes()
    ensures EncodePair(Pair([107], Scalar(Uint32, [7, 0, 0, 0])))
         == [1, 0, 0, 0, 0, 0, 0, 0, 107, 4, 0, 0, 0, 7, 0, 0, 0]
  {
    SmallNumbers();
    hide LittleEndian;
  }

  lemma TextPairBytes()
    ensures EncodePair(Pair([107], Str([104, 105])))
         == [1, 0, 0, 0, 0, 0, 0, 0, 107, 8, 0, 0, 0, 2, 0, 0, 0, 0, 0, 0, 0, 104, 105]
  {
    SmallNumbers();
    hide LittleEndian;
  }

  lemma ListPairBytes()
    ensures EncodePair(Pair([107], Array(2, [Scalar(Uint16, [1, 0]), Scalar(Uint16, [2, 1])])))
         == [1, 0, 0, 0, 0, 0, 0, 0, 107, 9, 0, 0, 0, 2, 0, 0, 0, 2, 0, 0, 0, 0, 0, 0, 0, 1, 0, 2, 1]
  {
    ListBytes();
    hide EncodeAll;
    SmallNumbers();
    hide LittleEndian;
  }

  lemma ListBytes()
    ensures EncodeAll([Scalar(Uint16, [1, 0]), Scalar(Uint16, [2, 1])]) == [1, 0, 2, 1]
  {
    var vs := [Scalar(Uint16, [1, 0]), Scalar(Uint16, [2, 1])];
    assert vs[1..] == [vs[1]] && vs[1..][1..] == [];
  }

  lemma SmallNumbers()
    ensures forall x :: 0 <= x < 10 ==> LittleEndian(x, 4) == [x, 0, 0, 0]
    ensures forall x :: 0 <= x < 10 ==> LittleEndian(x, 8) == [x, 0, 0, 0, 0, 0, 0, 0]
  {
    assert LittleEndian(0, 7) == [0, 0, 0, 0, 0, 0, 0];
  }

  // Conversely, whatever skip_value accepts inside the file is the encoding of a value.
  lemma {:induction false} SkippedBytesEncode(data: seq<byte>, off: nat, t: u32) returns (v: Value)
    requires ValueEnd(data, off, t).Success? && ValueEnd(data, off, t).value <= |data|
    ensures WellFormed(v) && TypeOf(v) == t
    ensures data[off..ValueEnd(data, off, t).value] == Encode(v)
    decreases Left(data, off), 0
  {
    var end := ValueEnd(data, off, t).value;
    if ScalarSize(t).Some? {
      var k := KindOf(t);
      v := Scalar(k, data[off..end]);
    } else if t == STRING {
      v := Str(data[off + 8..end]);
      ReadU64Bytes(data, off);
      SliceSplit(data, off, off + 8, end);
    } else {
      var (elementType, o1) := ReadU32(data, off).value;
      var (count, o2) := ReadU64(data, o1).value;
      ReadU32Bytes(data, off);
      ReadU64Bytes(data, o1);
      var vs := SkippedBytesEncodeAll(data, o2, elementType, count);
      v := Array(elementType, vs);
      SliceSplit(data, o1, o2, end);
      SliceSplit(data, off, o1, end);
    }
  }

  lemma {:induction false} SkippedBytesEncodeAll(data: seq<byte>, off: nat, t: u32, n: nat) returns (vs: seq<Value>)
    requires ElementsEnd(data, off, t, n).Success? && ElementsEnd(data, off, t, n).value <= |data|
    ensures |vs| == n && AllWellFormed(t, vs)
    ensures data[off..ElementsEnd(data, off, t, n).value] == EncodeAll(vs)
    decreases Left(data, off), n + 1
  {
    hide ValueEnd, Encode, WellFormed;
    if n == 0 {
      vs := [];
    } else {
      var next := ValueEnd(data, off, t).value;
      var end := ElementsEnd(data, off, t, n).value;
      var v := SkippedBytesEncode(data, off, t);
      var rest := SkippedBytesEncodeAll(data, next, t, n - 1);
      vs := [v] + rest;
      assert vs[1..] == rest;
      SliceSplit(data, off, next, end);
    }
  }

  lemma AtPair(data: seq<byte>, off: nat, p: Pair)
    requires |data| < SLICE_LIMIT && |p.key| < U64_LIMIT && At(data, off, EncodePair(p))
    ensures ReadU64(data, off) == Success((|p.key|, off + 8))
    ensures off + 8 + |p.key| <= |data| && data[off + 8..off + 8 + |p.key|] == p.key
    ensures ReadU32(data, off + 8 + |p.key|) == Success((TypeOf(p.value), off + 12 + |p.key|))
    ensures At(data, off + 12 + |p.key|, Encode(p.value))
    ensures |EncodePair(p)| == 12 + |p.key| + |Encode(p.value)|
  {
    var tail := LittleEndian(TypeOf(p.value), 4) + Encode(p.value);
    AtSplit(data, off, LittleEndian(|p.key|, 8), p.key + tail);
    AtSplit(data, off + 8, p.key, tail);
    AtSplit(data, off + 8 + |p.key|, LittleEndian(TypeOf(p.value), 4), Encode(p.value));
    ReadU64At(data, off, |p.key|);
    ReadU32At(data, off + 8 + |p.key|, TypeOf(p.value));
  }

  lemma PairEndFrom(data: seq<byte>, off: nat, keyLen: nat, t: u32, end: nat)
    requires off + 8 + keyLen < U64_LIMIT
    requires ReadU64(data, off) == Success((keyLen, off + 8))
    requires ReadU32(data, off + 8 + keyLen) == Success((t, off + 12 + keyLen))
    requires ValueEnd(data, off + 12 + keyLen, t) == Success(end)
    ensures PairEnd(data, off) == Success(end)
  {
  }

  lemma SkipInvertsEncodePair(data: seq<byte>, off: nat, p: Pair)
    requires |data| < SLICE_LIMIT && PairWellFormed(p) && At(data, off, EncodePair(p))
    ensures PairEnd(data, off) == Success(off + |EncodePair(p)|)
  {
    hide At, PairEnd, ReadU64, ReadU32;
    AtPair(data, off, p);
    SkipInvertsEncode(data, off + 12 + |p.key|, p.value);
    PairEndFrom(data, off, |p.key|, TypeOf(p.value), off + |EncodePair(p)|);
  }

  lemma {:induction false} SkipInvertsEncodePairs(data: seq<byte>, off: nat, ps: seq<Pair>)
    requires |data| < SLICE_LIMIT && PairsWellFormed(ps) && At(data, off, EncodePairs(ps))
    ensures PairsEnd(data, off, |ps|) == Success(off + |EncodePairs(ps)|)
    decreases ps
  {
    hide At, PairEnd, EncodePair, PairWellFormed;
    if ps != [] {
      AtSplit(data, off, EncodePair(ps[0]), EncodePairs(ps[1..]));
      SkipInvertsEncodePair(data, off, ps[0]);
      SkipInvertsEncodePairs(data, off + |EncodePair(ps[0])|, ps[1..]);
    }
  }

  // ---------------------------------------------------------------------------
  // get_metadata_string
  // ---------------------------------------------------------------------------

  // What one pair settles: the lookup ends with a result, or goes on at the next pair.
  datatype Step = Done(result: Result<Option<seq<byte>>, Error>) | Next(off: nat)

  // Failure is the slice panic; every error the source turns into `None` is Success(None).
  function LookupStep(data: seq<byte>, off: nat, target: seq<byte>): Step {
    if ReadU64(data, off).Failure? then Done(Success(None))
    else
      var (keyLen, keyStart) := ReadU64(data, off).value;
      if keyStart + keyLen > |data| then Done(Failure(SliceOutOfRange))
      else
        var key := data[keyStart..keyStart + keyLen];
        if !ValidUtf8(key) || ReadU32(data, keyStart + keyLen).Failure? then Done(Success(None))
        else
          var (t, valueStart) := ReadU32(data, keyStart + keyLen).value;
          if key == target then
            Done(if t == STRING then TextAt(data, valueStart) else Success(None))
          else if ValueEnd(data, valueStart, t).Failure? then Done(Success(None))
          else Next(ValueEnd(data, valueStart, t).value)
  }

  function StringFor(data: seq<byte>, off: nat, n: nat, target: seq<byte>): Result<Option<seq<byte>>, Error>
    decreases n
  {
    if n == 0 then Success(None)
    else
      match LookupStep(data, off, target)
      case Done(r) => r
      case Next(next) => StringFor(data, next, n - 1, target)
  }

  function TextAt(data: seq<byte>, off: nat): Result<Option<seq<byte>>, Error> {
    if ReadU64(data, off).Failure? then Success(None)
    else
      var (len, start) := ReadU64(data, off).value;
      if start + len > |data| then Failure(SliceOutOfRange)
      else if ValidUtf8(data[start..start + len]) then Success(Some(data[start..start + len]))
      else Success(None)
  }

  method GetMetadataString(data: seq<byte>, metadataStart: nat, kvCount: nat, targetKey: seq<byte>)
    returns (r: Result<Option<seq<byte>>, Error>)
    ensures r == StringFor(data, metadataStart, kvCount, targetKey)
  {
    hide ReadU64, ReadU32, ValueEnd, TextAt, ValidUtf8;
    var offset := metadataStart;
    for i := 0 to kvCount
      invariant StringFor(data, metadataStart, kvCount, targetKey)
             == StringFor(data, offset, kvCount - i, targetKey)
    {
      var lenRead := ReadU64(data, offset);
      if lenRead.Failure? { return Success(None); }
      var (keyLen, keyStart) := lenRead.value;
      if keyStart + keyLen > |data| { return Failure(SliceOutOfRange); }
      var key := data[keyStart..keyStart + keyLen];
      if !ValidUtf8(key) { return Success(None); }
      var typeRead := ReadU32(data, keyStart + keyLen);
      if typeRead.Failure? { return Success(None); }
      var (t, valueStart) := typeRead.value;
      if key == targetKey {
        if t == STRING {
          return TextAt(data, valueStart);
        }
        return Success(None);
      }
      var skipped := SkipValue(data, valueStart, t);
      if skipped.Failure? { return Success(None); }
      offset := skipped.value;
    }
    return Success(None);
  }

  function AsText(v: Value): Option<seq<byte>> {
    if v.Str? && ValidUtf8(v.text) then Some(v.text) else None
  }

  // The lookup over a decoded list.
  function Lookup(ps: seq<Pair>, target: seq<byte>): Option<seq<byte>> {
    if ps == [] || !ValidUtf8(ps[0].key) then None
    else if ps[0].key == target then AsText(ps[0].value)
    else Lookup(ps[1..], target)
  }

  lemma TextAtFinds(data: seq<byte>, off: nat, v: Value)
    requires |data| < SLICE_LIMIT && v.Str? && WellFormed(v) && At(data, off, Encode(v))
    ensures TextAt(data, off) == Success(AsText(v))
  {
    AtSplit(data, off, LittleEndian(|v.text|, 8), v.text);
    ReadU64At(data, off, |v.text|);
  }

  lemma LookupStepFrom(data: seq<byte>, off: nat, key: seq<byte>, t: u32, target: seq<byte>)
    requires ReadU64(data, off) == Success((|key|, off + 8))
    requires off + 8 + |key| <= |data| && data[off + 8..off + 8 + |key|] == key
    requires ReadU32(data, off + 8 + |key|) == Success((t, off + 12 + |key|))
    ensures LookupStep(data, off, target)
         == if !ValidUtf8(key) then Done(Success(None))
            else if key == target then
              Done(if t == STRING then TextAt(data, off + 12 + |key|) else Success(None))
            else
              var end := ValueEnd(data, off + 12 + |key|, t);
              if end.Failure? then Done(Success(None)) else Next(end.value)
  {
  }

  lemma LookupStepAtPair(data: seq<byte>, off: nat, p: Pair, target: seq<byte>)
    requires |data| < SLICE_LIMIT && PairWellFormed(p) && At(data, off, EncodePair(p))
    ensures LookupStep(data, off, target)
         == if !ValidUtf8(p.key) then Done(Success(None))
            else if p.key == target then Done(Success(AsText(p.value)))
            else Next(off + |EncodePair(p)|)
  {
    hide At, LookupStep, ReadU64, ReadU32;
    AtPair(data, off, p);
    SkipInvertsEncode(data, off + 12 + |p.key|, p.value);
    LookupStepFrom(data, off, p.key, TypeOf(p.value), target);
    if p.value.Str? {
      TextAtFinds(data, off + 12 + |p.key|, p.value);
    }
  }

  // The lookup over bytes is the lookup in the list of pairs they encode.
  lemma {:induction false} StringForEncodedPairs(data: seq<byte>, off: nat, ps: seq<Pair>, target: seq<byte>)
    requires |data| < SLICE_LIMIT && PairsWellFormed(ps) && At(data, off, EncodePairs(ps))
    ensures StringFor(data, off, |ps|, target) == Success(Lookup(ps, target))
    decreases ps
  {
    hide At, LookupStep, EncodePair, PairWellFormed, AsText, ValidUtf8;
    if ps != [] {
      AtSplit(data, off, EncodePair(ps[0]), EncodePairs(ps[1..]));
      LookupStepAtPair(data, off, ps[0], target);
      StringForEncodedPairs(data, off + |EncodePair(ps[0])|, ps[1..], target);
    }
  }

  // Pair i is the first with this key, and every key up to it is valid UTF-8.
  ghost predicate FirstMatch(ps: seq<Pair>, target: seq<byte>, i: nat) {
    && i < |ps|
    && ps[i].key == target
    && forall j :: 0 <= j <= i ==> ValidUtf8(ps[j].key) && (j < i ==> ps[j].key != target)
  }

  // The list lookup returns a text exactly when the first match holds that text.
  lemma {:induction false} LookupIsFirstMatch(ps: seq<Pair>, target: seq<byte>, text: seq<byte>)
    ensures Lookup(ps, target) == Some(text)
       <==> exists i: nat :: FirstMatch(ps, target, i) && ps[i].value == Str(text) && ValidUtf8(text)
  {
    if ps != [] {
      var rest := ps[1..];
      if ps[0].key == target {
        if Lookup(ps, target) == Some(text) {
          assert FirstMatch(ps, target, 0);
        }
      } else {
        LookupIsFirstMatch(rest, target, text);
        if Lookup(ps, target) == Some(text) {
          var i: nat :| FirstMatch(rest, target, i) && rest[i].value == Str(text);
          assert ps[i + 1] == rest[i];
          assert FirstMatch(ps, target, i + 1);
        }
        if i: nat :| FirstMatch(ps, target, i) && ps[i].value == Str(text) && ValidUtf8(text) {
          assert rest[i - 1] == ps[i];
          assert FirstMatch(rest, target, i - 1);
        }
      }
    }
  }

  // A length read at off that reaches past the end of the file.
  ghost predicate Overruns(data: seq<byte>, off: nat) {
    ReadU64(data, off).Success? && ReadU64(data, off).value.1 + ReadU64(data, off).value.0 > |data|
  }

  lemma LookupEndsEarly(data: seq<byte>, off: nat, target: seq<byte>)
    ensures ReadU64(data, off).Failure? ==> LookupStep(data, off, target) == Done(Success(None))
    ensures Overruns(data, off) ==> LookupStep(data, off, target) == Done(Failure(SliceOutOfRange))
    ensures ReadU64(data, off).Success? && !Overruns(data, off)
            && ReadU32(data, ReadU64(data, off).value.1 + ReadU64(data, off).value.0).Failure? ==>
              LookupStep(data, off, target) == Done(Success(None))
  {
    hide ValidUtf8, ValueEnd, TextAt, ReadU32, ReadU64;
  }

  lemma TextOverruns(data: seq<byte>, off: nat)
    ensures TextAt(data, off) == Failure(SliceOutOfRange) <==> Overruns(data, off)
  {
    hide ValidUtf8, ReadU64;
  }

  // The key that is read at off, as a lookup finds it.
  ghost predicate KeyAt(data: seq<byte>, off: nat, key: seq<byte>) {
    && ReadU64(data, off) == Success((|key|, off + 8))
    && off + 8 + |key| <= |data| && data[off + 8..off + 8 + |key|] == key
  }

  lemma KeyRead(data: seq<byte>, off: nat) returns (key: seq<byte>)
    requires ReadU64(data, off).Success? && !Overruns(data, off)
    ensures KeyAt(data, off, key) && |key| == ReadU64(data, off).value.0
    ensures forall other :: KeyAt(data, off, other) ==> other == key
  {
    hide ReadU64;
    var (keyLen, keyStart) := ReadU64(data, off).value;
    key := data[keyStart..keyStart + keyLen];
  }

  lemma LookupPanicsAt(data: seq<byte>, off: nat, key: seq<byte>, t: u32, target: seq<byte>)
    requires ReadU64(data, off) == Success((|key|, off + 8))
    requires off + 8 + |key| <= |data| && data[off + 8..off + 8 + |key|] == key
    requires ReadU32(data, off + 8 + |key|) == Success((t, off + 12 + |key|))
    ensures LookupStep(data, off, target) == Done(Failure(SliceOutOfRange))
       <==> key == target && ValidUtf8(key) && t == 8 && Overruns(data, off + 12 + |key|)
  {
    assert STRING == 8;
    hide *;
    LookupStepFrom(data, off, key, t, target);
    TextOverruns(data, off + 12 + |key|);
  }

  // The lookup panics at a pair exactly when its key reaches past the end of the file, or it is the
  // pair looked for and its text does.
  lemma LookupPanicsExactly(data: seq<byte>, off: nat, target: seq<byte>)
    ensures LookupStep(data, off, target) == Done(Failure(SliceOutOfRange))
       <==> || Overruns(data, off)
            || (&& KeyAt(data, off, target) && ValidUtf8(target)
                && ReadU32(data, off + 8 + |target|) == Success((8, off + 12 + |target|))
                && Overruns(data, off + 12 + |target|))
  {
    LookupEndsEarly(data, off, target);
    hide ReadU64, LookupStep, ValueEnd, TextAt, ValidUtf8;
    if ReadU64(data, off).Success? && !Overruns(data, off) {
      var key := KeyRead(data, off);
      assert ReadU64(data, off).value.1 == off + 8;
      var read := ReadU32(data, off + 8 + |key|);
      hide ReadU32, Overruns;
      if read.Success? {
        LookupPanicsAt(data, off, key, read.value.0, target);
      }
    } else {
      hide ReadU32;
    }
  }

  // Inside metadata that parses, no lookup indexes past the end of the file.
  lemma LookupStepSafe(data: seq<byte>, off: nat, target: seq<byte>)
    requires PairEnd(data, off).Success? && PairEnd(data, off).value <= |data|
    ensures var step := LookupStep(data, off, target);
            match step case Done(r) => r.Success? case Next(next) => PairEnd(data, off) == Success(next)
  {
    hide ValidUtf8;
  }

  lemma {:induction false} LookupNeverPanics(data: seq<byte>, off: nat, n: nat, target: seq<byte>)
    requires PairsEnd(data, off, n).Success? && PairsEnd(data, off, n).value <= |data|
    ensures StringFor(data, off, n, target).Success?
    decreases n
  {
    hide PairEnd, LookupStep;
    if n > 0 {
      LookupStepSafe(data, off, target);
      if LookupStep(data, off, target).Next? {
        LookupNeverPanics(data, LookupStep(data, off, target).off, n - 1, target);
      }
    }
  }
}
