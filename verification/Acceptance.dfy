/**
 The field codecs by what they accept and which bytes they stand for, value by value: the limits of every type, the
 digits of a varint, and the bytes of tags and fixed-width words.
 */
module Acceptance {
  import opened Basics
  import opened Bits
  import opened Wire
  import opened Descriptor
  import opened Scalars
  import opened Decoder
  import opened Encoder
  import opened Varint32
  import opened Preservation
  import opened RoundTrip

  // ---- Varints ----

  /** The value of base-128 digits, lowest first, without their continuation bits */
  function DigitSum(s: bytes): nat {
    if s == [] then 0 else s[0] % 128 + 128 * DigitSum(s[1..])
  }

  /** The first byte below 128 is byte number n. */
  predicate EndsAfter(s: bytes, n: nat) {
    0 < n <= |s| && s[n - 1] < 128 && forall i | 0 <= i < n - 1 :: s[i] >= 128
  }

  lemma {:induction false} DigitsMeaning(s: bytes, n: nat, limit: nat)
    requires EndsAfter(s, n)
    ensures Digits(s, limit) == if n <= limit then Got(DigitSum(s[..n]), s[n..]) else Fail
    decreases n
  {
    assert s[..n][1..] == s[1..][..n - 1] && s[..n][0] == s[0];
    if n > 1 && limit > 0 {
      assert EndsAfter(s[1..], n - 1) by {
        assert forall i | 0 <= i < n - 2 :: s[1..][i] == s[i + 1];
      }
      DigitsMeaning(s[1..], n - 1, limit - 1);
      assert s[1..][n - 1..] == s[n..];
    }
  }

  lemma {:induction false} NoDigits(s: bytes, limit: nat)
    requires forall i | 0 <= i < |s| :: s[i] >= 128
    ensures Digits(s, limit) == Fail
  {
    if s != [] && limit > 0 {
      NoDigits(s[1..], limit - 1);
    }
  }

  /** A varint ends at the first byte below 128, has at most ten bytes, and counts modulo 2^64. */
  lemma VarintMeaning(s: bytes, n: nat)
    requires EndsAfter(s, n)
    ensures ReadVarint(s) == if n <= 10 then Got(DigitSum(s[..n]) % TWO64, s[n..]) else Fail
  {
    DigitsMeaning(s, n, 10);
  }

  lemma UnendedVarint(s: bytes)
    requires forall i | 0 <= i < |s| :: s[i] >= 128
    ensures ReadVarint(s) == Fail
  {
    NoDigits(s, 10);
  }

  /** The encodings of the protocol's documentation */
  lemma VarintExamples()
    ensures VarintBytes(0) == [0] && VarintBytes(1) == [1] && VarintBytes(127) == [127] && VarintBytes(128) == [128, 1]
    ensures VarintBytes(150) == [150, 1] && VarintBytes(300) == [172, 2]
    ensures ZigZag(0) == 0 && ZigZag(-1) == 1 && ZigZag(1) == 2 && ZigZag(-2) == 3
    ensures ZigZag(2147483647) == 4294967294 && ZigZag(-2147483648) == 4294967295
  {
  }

  // ---- Integers of every width ----

  /** The least and the least too large value of a signed integer of this size */
  function SignedLimit(size: nat): int {
    if size == 1 then 0x80 else if size == 2 then 0x8000 else if size == 4 then 0x8000_0000
    else 0x8000_0000_0000_0000
  }

  lemma Congruent32(v: int, i: int)
    ensures ToSigned(v, TWO32) == i <==> -0x8000_0000 <= i < 0x8000_0000 && (v - i) % TWO32 == 0
  {
    assert v == TWO32 * (v / TWO32) + v % TWO32;
    assert v - i == TWO32 * ((v - i) / TWO32) + (v - i) % TWO32;
  }

  lemma Congruent64(v: int, i: int)
    ensures ToSigned(v, TWO64) == i
       <==> -0x8000_0000_0000_0000 <= i < 0x8000_0000_0000_0000 && (v - i) % TWO64 == 0
  {
    assert v == TWO64 * (v / TWO64) + v % TWO64;
    assert v - i == TWO64 * ((v - i) / TWO64) + (v - i) % TWO64;
  }

  /** A cast to a narrower signed type that changes nothing */
  lemma CastKeeps(size: nat, i: int)
    requires IsIntSize(size)
    ensures ToSigned(i, Width(size)) == i <==> -SignedLimit(size) <= i < SignedLimit(size)
  {
    var w := Width(size);
    assert w == 2 * SignedLimit(size);
    if -SignedLimit(size) <= i < SignedLimit(size) {
      OwnWord(i, w);
    }
  }

  /** The integer that a decoded uint64 stands for in a field of this type and size */
  predicate Stands(t: LType, size: nat, w: nat, i: int) {
    match t
    case LVarint =>
      -SignedLimit(size) <= i < SignedLimit(size) && (w - i) % (if size == 8 then TWO64 else TWO32) == 0
    case LUVarint => i == w < 2 * SignedLimit(size)
    case LSVarint => -SignedLimit(size) <= i < SignedLimit(size) && w == if i < 0 then -2 * i - 1 else 2 * i
    case _ => false
  }

  /**
   What an integer field takes: int32 and int64 any congruent value in range, so that the upper half of a sign extension
   is ignored; unsigned and zig-zag fields only the value itself.
   */
  lemma CastMeaning(t: LType, size: nat, w: nat, i: int)
    requires IsIntSize(size) && w < TWO64 && (t.LVarint? || t.LUVarint? || t.LSVarint?)
    ensures CastVarint(t, size, w) == Some(i) <==> Stands(t, size, w, i)
  {
    match t
    case LVarint => SignedMeaning(size, w, i);
    case LUVarint => UnsignedMeaning(size, w);
    case LSVarint =>
      CastKeeps(size, UnZigZag(w));
      ZigZagMeaning(w, i);
  }

  lemma ZigZagMeaning(w: nat, i: int)
    ensures UnZigZag(w) == i <==> w == if i < 0 then -2 * i - 1 else 2 * i
  {
  }

  lemma SignedMeaning(size: nat, w: nat, i: int)
    requires IsIntSize(size) && w < TWO64
    ensures DecodeSigned(size, w) == Some(i) <==> Stands(LVarint, size, w, i)
  {
    if size == 8 {
      Congruent64(w, i);
      CastKeeps(size, ToSigned(w, TWO64));
    } else {
      Congruent32(w, i);
      CastKeeps(size, ToSigned(w, TWO32));
    }
  }

  lemma UnsignedMeaning(size: nat, w: nat)
    requires IsIntSize(size)
    ensures w % Width(size) == w <==> w < 2 * SignedLimit(size)
  {
    assert Width(size) == 2 * SignedLimit(size);
    if w < Width(size) {
      SmallMod(w, Width(size));
    }
  }

  /** An integer field on its varint */
  lemma IntegerAcceptance(f: Field, s: bytes, n: nat, i: int)
    requires WellFormedField(f) && (f.ltype.LVarint? || f.ltype.LUVarint? || f.ltype.LSVarint?) && EndsAfter(s, n)
    ensures DecodeScalar(f, s) == Got(VInt(i), s[n..])
       <==> n <= 10 && Stands(f.ltype, f.dataSize, DigitSum(s[..n]) % TWO64, i)
    ensures DecodeScalar(f, s).Got? ==> DecodeScalar(f, s).value.VInt? && DecodeScalar(f, s).rest == s[n..]
  {
    VarintMeaning(s, n);
    CastMeaning(f.ltype, f.dataSize, DigitSum(s[..n]) % TWO64, i);
  }

  // ---- Booleans, words and data ----

  /** A bool is true for every nonzero value. */
  lemma BoolAcceptance(f: Field, v: nat, t: bytes)
    requires f.ltype.LBool? && v < TWO32
    ensures DecodeScalar(f, VarintBytes(v) + t) == Got(VBool(v != 0), t)
  {
    AcceptsCanonical(v, t);
  }

  /** The number with these bytes, lowest first */
  function Word(a: nat, b: nat, c: nat, d: nat): nat {
    a + 0x100 * b + 0x1_0000 * c + 0x100_0000 * d
  }

  lemma FourBytes(s: bytes)
    requires |s| == 4
    ensures LittleEndianValue(s) == Word(s[0], s[1], s[2], s[3])
  {
    assert s[1..][1..] == s[2..] && s[2..][1..] == s[3..] && s[3..][1..] == [];
    assert LittleEndianValue(s[3..]) == s[3];
    assert LittleEndianValue(s[2..]) == Word(s[2], s[3], 0, 0);
    assert LittleEndianValue(s[1..]) == Word(s[1], s[2], s[3], 0);
  }

  lemma {:induction false} Halves(s: bytes, k: nat)
    requires k <= |s|
    ensures LittleEndianValue(s) == LittleEndianValue(s[..k]) + Pow2(8 * k) * LittleEndianValue(s[k..])
  {
    if k > 0 {
      Halves(s[1..], k - 1);
      assert s[..k][1..] == s[1..][..k - 1] && s[1..][k - 1..] == s[k..];
      PowAdd(8, 8 * (k - 1));
      assert Pow2(8) == 0x100;
      Scale(Pow2(8 * (k - 1)), LittleEndianValue(s[k..]), LittleEndianValue(s[..k][1..]), s[0]);
    } else {
      assert s[..0] == [] && s[0..] == s;
    }
  }

  lemma Scale(p: nat, x: nat, y: nat, b: nat)
    ensures b + 0x100 * (y + p * x) == b + 0x100 * y + (0x100 * p) * x
  {
    assert 0x100 * (p * x) == (0x100 * p) * x;
  }

  /** Fixed-width fields take four or eight bytes, lowest first. */
  lemma WordAcceptance(f: Field, s: bytes)
    requires f.ltype.LFixed32? || f.ltype.LFixed64?
    ensures var n := if f.ltype.LFixed32? then 4 else 8;
            DecodeScalar(f, s).Got? <==> |s| >= n
    ensures f.ltype.LFixed32? && |s| >= 4 ==>
              DecodeScalar(f, s)
              == Got(VInt(Word(s[0], s[1], s[2], s[3])), s[4..])
    ensures f.ltype.LFixed64? && |s| >= 8 ==>
              DecodeScalar(f, s)
              == Got(VInt(Word(s[0], s[1], s[2], s[3]) + TWO32 * Word(s[4], s[5], s[6], s[7])), s[8..])
  {
    if f.ltype.LFixed32? && |s| >= 4 {
      FourBytes(s[..4]);
    } else if f.ltype.LFixed64? && |s| >= 8 {
      Halves(s[..8], 4);
      assert s[..8][..4] == s[..4] && s[..8][4..] == s[4..8];
      FourBytes(s[..4]);
      FourBytes(s[4..8]);
      WordPower(8 * 4);
    }
  }

  predicate AllZero(data: bytes, n: nat) {
    |data| == n && forall i | 0 <= i < n :: data[i] == 0
  }

  /**
   What a data field makes of a frame: bytes with the four bytes before them and strings with their terminator must fit
   data_size; bytes of fixed length are taken at that length, and an empty frame gives zeros.
   */
  predicate TakesData(f: Field, data: bytes, r: Option<bytes>) {
    match f.ltype
    case LBytes => r == if |data| + 4 <= f.dataSize then Some(data) else None
    case LString => r == if |data| + 1 <= f.dataSize then Some(data) else None
    case _ =>
      if data == [] then r.Some? && AllZero(r.value, f.dataSize)
      else r == if |data| == f.dataSize then Some(data) else None
  }

  lemma AcceptsData(f: Field, data: bytes)
    requires WellFormedField(f) && |data| < TWO32 && (f.ltype.LBytes? || f.ltype.LString? || f.ltype.LFixedBytes?)
    ensures TakesData(f, data, AcceptData(f, data))
  {
  }

  lemma DataAcceptance(f: Field, data: bytes, t: bytes)
    requires WellFormedField(f) && |data| < TWO32 && (f.ltype.LBytes? || f.ltype.LString? || f.ltype.LFixedBytes?)
    ensures exists taken ::
              TakesData(f, data, taken)
              && DecodeScalar(f, Blob(data) + t) == if taken.Some? then Got(VData(taken.value), t) else Fail
  {
    BlobRoundTrip(data, t);
    AcceptsData(f, data);
  }

  // ---- What is written ----

  function KindCode(t: LType): nat {
    match t
    case LFixed64 => 1
    case LFixed32 => 5
    case LBool => 0
    case LVarint => 0
    case LUVarint => 0
    case LSVarint => 0
    case _ => 2
  }

  /** A tag is the field number, and three bits for how the value ends. */
  lemma TagForm(f: Field)
    ensures TagFor(f) == VarintBytes(8 * f.tag + KindCode(f.ltype))
    ensures TagBytes(f.tag, LengthDelimited) == VarintBytes(8 * f.tag + 2)
  {
  }

  lemma WordForm(f: Field, i: int)
    requires f.ltype.LFixed32? || f.ltype.LFixed64?
    requires ScalarShape(f, VInt(i))
    ensures var e := EncodeScalar(f, VInt(i));
            |e| == (if f.ltype.LFixed32? then 4 else 8) && DecodeScalar(f, e) == Got(VInt(i), [])
  {
    FixedFieldRoundTrip(f, VInt(i), []);
    assert EncodeScalar(f, VInt(i)) + [] == EncodeScalar(f, VInt(i));
  }

  lemma ExtendedSign(i: int)
    requires -0x8000_0000_0000_0000 <= i < 0
    ensures i % TWO64 == i + TWO64
  {
  }

  /** The bytes of a scalar: negative integers are sign-extended to 64 bits, zig-zag ones are not. */
  lemma ScalarForm(f: Field, v: Value)
    requires WellFormedField(f) && ScalarShape(f, v)
    ensures var e := EncodeScalar(f, v);
            match f.ltype
            case LBool => e == [if v.b then 1 else 0]
            case LVarint => e == VarintBytes(if v.i < 0 then v.i + TWO64 else v.i)
            case LUVarint => e == VarintBytes(v.i)
            case LSVarint => e == VarintBytes(if v.i < 0 then -2 * v.i - 1 else 2 * v.i)
            case LFixed32 => |e| == 4 && DecodeScalar(f, e) == Got(v, [])
            case LFixed64 => |e| == 8 && DecodeScalar(f, e) == Got(v, [])
            case LString => exists text :: IsText(v.data, text) && e == VarintBytes(|text|) + text
            case _ => e == VarintBytes(|v.data|) + v.data
  {
    match f.ltype
    case LBool =>
    case LVarint =>
      if v.i < 0 {
        ExtendedSign(v.i);
      } else {
        SmallMod(v.i, TWO64);
      }
    case LUVarint => SmallMod(v.i, TWO64);
    case LSVarint => SmallMod(ZigZag(v.i), TWO64);
    case LFixed32 => WordForm(f, v.i);
    case LFixed64 => WordForm(f, v.i);
    case LString => CStringIsText(v.data);
    case _ =>
  }

  /** Of the scalar values, only byte arrays larger than their buffer cannot be encoded. */
  lemma EncodableExactly(f: Field, v: Value)
    requires WellFormedField(f) && !f.ltype.LSubmessage? && ScalarShape(f, v)
    ensures EncodableValue(f, v) <==> (f.ltype.LBytes? ==> |v.data| + 4 <= f.dataSize)
  {
  }

  // ---- Fields of each rule ----

  function OneField(f: Field, slot: Slot): bytes {
    EncodeMessage(Desc([f]), Message(map[f.storage := slot]))
  }

  lemma OneFieldIsSlot(f: Field, slot: Slot)
    ensures OneField(f, slot) == if Emits(f, slot) then EncodeSlot(f, slot) else []
  {
    var d, m := Desc([f]), Message(map[f.storage := slot]);
    assert d.fields[0] == f && SlotAt(m, f.storage) == slot;
    var e := if Emits(f, slot) then EncodeSlot(f, slot) else [];
    assert EncodeFrom(d, m, 0) == e + EncodeFrom(d, m, 1) && EncodeFrom(d, m, 1) == [];
    assert e + [] == e;
  }

  /** Required fields, and optional and oneof fields that are set, are written; the others are not. */
  lemma SingleForm(f: Field, v: Value, other: nat)
    requires WellFormedField(f) && other != f.tag
    ensures var e := VarintBytes(8 * f.tag + KindCode(f.ltype)) + EncodeValue(f, v);
            && (f.htype.Required? ==> OneField(f, SValue(v)) == e)
            && (f.htype.Optional? && f.sizeOffset != 0 ==>
                  OneField(f, SOptional(true, v)) == e && OneField(f, SOptional(false, v)) == [])
            && (f.htype.Oneof? ==>
                  OneField(f, SOne(f.tag, v)) == e && OneField(f, SOne(other, v)) == [] && OneField(f, SNone) == [])
  {
    TagForm(f);
    OneFieldIsSlot(f, SValue(v));
    OneFieldIsSlot(f, SOptional(true, v));
    OneFieldIsSlot(f, SOptional(false, v));
    OneFieldIsSlot(f, SOne(f.tag, v));
    OneFieldIsSlot(f, SOne(other, v));
    OneFieldIsSlot(f, SNone);
  }

  /** Arrays of numbers are one record, all others one record for each item. */
  lemma ArrayForm(f: Field, items: seq<Value>, v: Value)
    requires WellFormedField(f) && f.htype.Repeated?
    ensures OneField(f, SRepeated([])) == []
    ensures Packable(f.ltype) && items != [] ==>
              OneField(f, SRepeated(items))
              == VarintBytes(8 * f.tag + 2) + VarintBytes(|EncodePacked(f, items)|) + EncodePacked(f, items)
    ensures !Packable(f.ltype) ==>
              OneField(f, SRepeated([v] + items))
              == VarintBytes(8 * f.tag + KindCode(f.ltype)) + EncodeValue(f, v) + OneField(f, SRepeated(items))
  {
    TagForm(f);
    OneFieldIsSlot(f, SRepeated([]));
    OneFieldIsSlot(f, SRepeated(items));
    OneFieldIsSlot(f, SRepeated([v] + items));
    if !Packable(f.ltype) {
      FirstItem(f, v, items);
    } else {
      BlobForm(VarintBytes(8 * f.tag + 2), EncodePacked(f, items));
    }
  }

  lemma BlobForm(tag: bytes, data: bytes)
    ensures tag + Blob(data) == tag + VarintBytes(|data|) + data
  {
  }

  lemma FirstItem(f: Field, v: Value, items: seq<Value>)
    ensures EncodeItems(f, [v] + items) == TagFor(f) + EncodeValue(f, v) + EncodeItems(f, items)
  {
    assert ([v] + items)[1..] == items;
  }

  /** An array is an error when it is longer than array_size, or an item is. */
  lemma ArrayEncodable(f: Field, items: seq<Value>)
    requires f.htype.Repeated?
    ensures Encodable(Desc([f]), Message(map[f.storage := SRepeated(items)]))
       <==> items == [] || (|items| <= f.arraySize && forall k | 0 <= k < |items| :: EncodableValue(f, items[k]))
  {
    var d, m := Desc([f]), Message(map[f.storage := SRepeated(items)]);
    assert d.fields[0] == f && SlotAt(m, f.storage) == SRepeated(items);
    assert Encodable(d, m) <==> (Emits(f, SRepeated(items)) ==> EncodableSlot(f, SRepeated(items)));
    assert EncodableSlot(f, SRepeated(items)) <==> |items| <= f.arraySize && EncodableItems(f, items);
    assert EncodableItems(f, items) <==> forall k | 0 <= k < |items| :: EncodableValue(f, items[k]);
  }

  // ---- What the loop makes of records it does not know ----

  /** A zero byte where a tag is expected ends the message there. */
  lemma ZeroEnds(d: Desc, m: Message, seen: set<nat>, t: bytes)
    ensures DecodeLoop(d, m, seen, [0] + t) == Accept(m, seen, false, t)
  {
    assert ([0] + t)[1..] == t;
  }

  lemma UnknownRecord(d: Desc, m: Message, seen: set<nat>, tag: nat, code: nat, rest: bytes)
    requires 0 < tag < TAG_LIMIT && code < 8 && Find(d, tag).None?
    ensures var skipped := SkipField(WireTypeOf(code), rest);
            DecodeLoop(d, m, seen, VarintBytes(8 * tag + code) + rest)
            == if skipped.Got? then DecodeLoop(d, m, seen, skipped.rest) else Reject
  {
    var s := VarintBytes(8 * tag + code) + rest;
    TagWithCode(tag, code, rest);
    if SkipField(WireTypeOf(code), rest).Got? {
      assert SkipField(WireTypeOf(code), rest).value == ();
      LoopUnknown(d, m, seen, s, tag, WireTypeOf(code), rest, SkipField(WireTypeOf(code), rest).rest);
    }
  }

  /** What the payload of an unknown field may look like, by the low three bits of its tag */
  predicate Payload(code: nat, x: bytes) {
    if code == 0 then EndsAfter(x, |x|)
    else if code == 1 then |x| == 8
    else if code == 5 then |x| == 4
    else false
  }

  lemma {:induction false} SkipsEnded(x: bytes, t: bytes)
    requires EndsAfter(x, |x|)
    ensures SkipVarint(x + t) == Got((), t)
  {
    if |x| == 1 {
      assert (x + t)[1..] == t;
    } else {
      assert EndsAfter(x[1..], |x[1..]|);
      SkipsEnded(x[1..], t);
      assert (x + t)[1..] == x[1..] + t;
    }
  }

  lemma PayloadSkipped(code: nat, x: bytes, t: bytes)
    requires code < 8 && |x| < TWO32
    ensures Payload(code, x) ==> SkipField(WireTypeOf(code), x + t) == Got((), t)
    ensures code == 2 ==> SkipField(WireTypeOf(code), Blob(x) + t) == Got((), t)
    ensures code == 3 || code == 4 || code == 6 || code == 7 ==> SkipField(WireTypeOf(code), x + t).Fail?
  {
    if code == 0 && Payload(code, x) {
      SkipsEnded(x, t);
    } else if code == 2 {
      BlobRoundTrip(x, t);
      BlobFrame(Blob(x) + t);
    } else if Payload(code, x) {
      assert (x + t)[|x|..] == t;
    }
  }

  /**
   Unknown fields are passed over: a varint of any length, eight bytes, four bytes, or a blob. The other codes, among
   them the old group markers, make the decoder reject.
   */
  lemma UnknownIsSkipped(d: Desc, m: Message, seen: set<nat>, tag: nat, code: nat, x: bytes, t: bytes)
    requires 0 < tag < TAG_LIMIT && code < 8 && Find(d, tag).None? && |x| < TWO32
    ensures Payload(code, x) ==>
              DecodeLoop(d, m, seen, VarintBytes(8 * tag + code) + (x + t)) == DecodeLoop(d, m, seen, t)
    ensures code == 2 ==>
              DecodeLoop(d, m, seen, VarintBytes(8 * tag + code) + (Blob(x) + t)) == DecodeLoop(d, m, seen, t)
    ensures code == 3 || code == 4 || code == 6 || code == 7 ==>
              DecodeLoop(d, m, seen, VarintBytes(8 * tag + code) + (x + t)) == Reject
  {
    UnknownRecord(d, m, seen, tag, code, x + t);
    UnknownRecord(d, m, seen, tag, code, Blob(x) + t);
    PayloadSkipped(code, x, t);
  }

  /** A descriptor without fields takes every record with tag 0 for a varint, whatever the tag says. */
  lemma EmptyTable(m: Message, seen: set<nat>, code: nat, v: nat, t: bytes)
    requires 0 < code < 8 && v < TWO32
    ensures DecodeLoop(Desc([]), m, seen, [code] + (VarintBytes(v) + t)) == DecodeLoop(Desc([]), m, seen, t)
  {
    var s := [code] + (VarintBytes(v) + t);
    assert s[1..] == VarintBytes(v) + t;
    AcceptsCanonical(v, t);
    assert ReadTag(s) == Tag(0, WireTypeOf(code), VarintBytes(v) + t);
  }

  /** The low bits of a known field's tag are not checked; they only tell a packed array from a single number. */
  lemma KnownKindIgnored(d: Desc, m: Message, seen: set<nat>, f: Field, code: nat, rest: bytes)
    requires WellFormedField(f) && Find(d, f.tag) == Some(f) && code < 8
    requires f.htype.Repeated? && Packable(f.ltype) ==> code != 2
    ensures DecodeLoop(d, m, seen, VarintBytes(8 * f.tag + code) + rest) == DecodeLoop(d, m, seen, TagFor(f) + rest)
  {
    TagWithCode(f.tag, code, rest);
    KnownTag(f, rest);
    SameRecord(d, m, seen, f, WireTypeOf(code), VarintBytes(8 * f.tag + code) + rest, TagFor(f) + rest, rest);
  }

  lemma TagWithCode(tag: nat, code: nat, rest: bytes)
    requires 0 < tag < TAG_LIMIT && code < 8
    ensures VarintBytes(8 * tag + code) + rest != []
    ensures ReadTag(VarintBytes(8 * tag + code) + rest) == Tag(tag, WireTypeOf(code), rest)
  {
    AcceptsCanonical(8 * tag + code, rest);
  }

  lemma SameRecord(d: Desc, m: Message, seen: set<nat>, f: Field, wt: WireType, s: bytes, s': bytes, rest: bytes)
    requires Find(d, f.tag) == Some(f) && (f.htype.Repeated? && Packable(f.ltype) ==> wt != LengthDelimited)
    requires s != [] && ReadTag(s) == Tag(f.tag, wt, rest)
    requires s' != [] && ReadTag(s') == Tag(f.tag, WireTypeFor(f.ltype), rest)
    ensures DecodeLoop(d, m, seen, s) == DecodeLoop(d, m, seen, s')
  {
    assert !IsPacked(f, wt) && !IsPacked(f, WireTypeFor(f.ltype));
    LoopKnown(d, m, seen, s, f, wt, rest);
    LoopKnown(d, m, seen, s', f, WireTypeFor(f.ltype), rest);
  }

  // ---- Required fields ----

  /** The required fields before position i */
  function RequiredAt(d: Desc, i: nat): set<nat>
    requires i <= |d.fields|
  {
    set j: nat | j < i && d.fields[j].htype.Required?
  }

  lemma {:induction false} RequiredBeforeCounts(d: Desc, i: nat)
    requires i <= |d.fields|
    ensures RequiredBefore(d, i) == |RequiredAt(d, i)|
  {
    if i > 0 {
      RequiredBeforeCounts(d, i - 1);
      assert RequiredAt(d, i) == RequiredAt(d, i - 1) + if d.fields[i - 1].htype.Required? then {i - 1} else {};
    }
  }

  /** A decode call succeeds exactly when its loop does and the first 64 required fields all occurred. */
  lemma AcceptedExactly(d: Desc, m: Message, s: bytes)
    ensures var o := DecodeLoop(d, m, {}, s);
            DecodeNoInit(d, m, s)
            == if o.Accept?
                  && forall i | 0 <= i < |d.fields| && d.fields[i].htype.Required? && |RequiredAt(d, i)| < 64 ::
                       d.fields[i].tag in o.seen
               then Got(o.m, o.rest) else Fail
  {
    forall i | 0 <= i < |d.fields| ensures RequiredBefore(d, i) == |RequiredAt(d, i)| {
      RequiredBeforeCounts(d, i);
    }
  }
}
