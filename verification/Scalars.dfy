/**
 The field codecs that do not nest: pb_enc_* and pb_dec_* for numbers, bytes, strings and
 fixed-length bytes, and how much input each wire type or field type takes.
 */
module Scalars {
  import opened Basics
  import opened Bits
  import opened Wire
  import opened Descriptor
  import Varint32

  // ---- Encoding ----

  function IntOf(v: Value): int {
    if v.VInt? then v.i else 0
  }

  function DataOf(v: Value): bytes {
    if v.VData? then v.data else []
  }

  /** The part of a char buffer before its terminator. */
  function CString(data: bytes): (c: bytes)
    ensures |c| <= |data|
  {
    if data == [] || data[0] == 0 then [] else [data[0]] + CString(data[1..])
  }

  function EncodeScalar(f: Field, v: Value): bytes {
    match f.ltype
    case LBool => VarintBytes(if v == VBool(true) then 1 else 0)
    case LVarint => VarintBytes(IntOf(v) % TWO64)
    case LUVarint => VarintBytes(IntOf(v) % TWO64)
    case LSVarint => VarintBytes(ZigZag(IntOf(v)) % TWO64)
    case LFixed32 => LittleEndian(4, IntOf(v) % TWO32)
    case LFixed64 => LittleEndian(8, IntOf(v) % TWO64)
    case LBytes => Blob(DataOf(v))
    case LString => Blob(CString(DataOf(v)))
    case LFixedBytes => Blob(DataOf(v))
    case _ => []
  }

  function WireTypeFor(t: LType): WireType {
    match t
    case LBool => Varint
    case LVarint => Varint
    case LUVarint => Varint
    case LSVarint => Varint
    case LFixed32 => Fixed32Bit
    case LFixed64 => Fixed64Bit
    case _ => LengthDelimited
  }

  function TagBytes(tag: nat, wt: WireType): bytes {
    VarintBytes(8 * tag + WireCode(wt))
  }

  // ---- Decoding ----

  function DecodeSigned(size: nat, v: nat): Option<int> {
    var svalue := if size == 8 then ToSigned(v, TWO64) else ToSigned(v, TWO32);
    if IsIntSize(size) && ToSigned(svalue, Width(size)) == svalue then Some(svalue) else None
  }

  function DecodeUnsigned(size: nat, v: nat): Option<int> {
    if IsIntSize(size) && v % Width(size) == v then Some(v) else None
  }

  function DecodeZigZag(size: nat, v: nat): Option<int> {
    var value := UnZigZag(v);
    if IsIntSize(size) && ToSigned(value, Width(size)) == value then Some(value) else None
  }

  function CastVarint(t: LType, size: nat, v: nat): Option<int> {
    match t
    case LVarint => DecodeSigned(size, v)
    case LUVarint => DecodeUnsigned(size, v)
    case _ => DecodeZigZag(size, v)
  }

  /** The contents a length-delimited scalar field takes from its frame, if it accepts the length. */
  function AcceptData(f: Field, data: bytes): Option<bytes> {
    match f.ltype
    case LBytes => if |data| > SIZE_MAX || |data| + BYTES_OFFSET > f.dataSize then None else Some(data)
    case LString => if (|data| + 1) % TWO32 < |data| || |data| + 1 > f.dataSize then None else Some(data)
    case _ =>
      if |data| > SIZE_MAX then None
      else if |data| == 0 then Some(ZeroBytes(f.dataSize))
      else if |data| != f.dataSize then None
      else Some(data)
  }

  function DecodeScalar(f: Field, s: bytes): Read<Value> {
    match f.ltype
    case LBool =>
      (match ReadVarint32(s)
       case Fail => Fail
       case Got(v, rest) => Got(VBool(v != 0), rest))
    case LFixed32 => DecodeFixed(4, s)
    case LFixed64 => DecodeFixed(8, s)
    case LSubmessage(_) => Fail
    case LExtension => Fail
    case _ => if Packable(f.ltype) then DecodeVarintField(f, s) else DecodeData(f, s)
  }

  function DecodeVarintField(f: Field, s: bytes): Read<Value> {
    match ReadVarint(s)
    case Fail => Fail
    case Got(v, rest) =>
      match CastVarint(f.ltype, f.dataSize, v)
      case None => Fail
      case Some(i) => Got(VInt(i), rest)
  }

  function DecodeFixed(n: nat, s: bytes): Read<Value> {
    match ReadBytes(s, n)
    case Fail => Fail
    case Got(b, rest) => Got(VInt(LittleEndianValue(b)), rest)
  }

  function DecodeData(f: Field, s: bytes): Read<Value> {
    match ReadBlob(s)
    case Fail => Fail
    case Got(data, rest) =>
      match AcceptData(f, data)
      case None => Fail
      case Some(d) => Got(VData(d), rest)
  }

  // ---- Extents: how far a field reaches, whatever the message holds ----

  function SkipLType(t: LType, s: bytes): Read<()> {
    match WireTypeFor(t)
    case Varint => SkipVarint(s)
    case Fixed32Bit => SkipBytes(s, 4)
    case Fixed64Bit => SkipBytes(s, 8)
    case _ => SkipString(s)
  }

  /** pb_skip_field */
  function SkipField(wt: WireType, s: bytes): Read<()> {
    match wt
    case Varint => SkipVarint(s)
    case Fixed64Bit => SkipBytes(s, 8)
    case LengthDelimited => SkipString(s)
    case Fixed32Bit => SkipBytes(s, 4)
    case Other(_) => Fail
  }

  predicate IsPacked(f: Field, wt: WireType) {
    f.htype.Repeated? && wt == LengthDelimited && Packable(f.ltype)
  }

  /** The extent of one record of a known field. */
  function SkipRecord(f: Field, wt: WireType, s: bytes): Read<()> {
    if IsPacked(f, wt) then SkipString(s) else SkipLType(f.ltype, s)
  }

  // ---- Extents are taken exactly, and trailing bytes do not matter ----

  lemma SkipLTypeFacts(t: LType, s: bytes, x: bytes)
    ensures Progress(s, SkipLType(t, s))
    ensures SkipLType(t, s).Got? ==> SkipLType(t, s + x) == Extend(SkipLType(t, s), x)
  {
    SkipVarintProgress(s);
    BlobFrame(s);
    if SkipLType(t, s).Got? {
      match WireTypeFor(t)
      case Varint => SkipVarintExtend(s, x);
      case Fixed32Bit => BytesExtend(s, 4, x);
      case Fixed64Bit => BytesExtend(s, 8, x);
      case _ => BlobExtend(s, x);
    }
  }

  lemma SkipFieldFacts(wt: WireType, s: bytes, x: bytes)
    ensures Progress(s, SkipField(wt, s))
    ensures SkipField(wt, s).Got? ==> SkipField(wt, s + x) == Extend(SkipField(wt, s), x)
  {
    SkipVarintProgress(s);
    BlobFrame(s);
    if SkipField(wt, s).Got? {
      match wt
      case Varint => SkipVarintExtend(s, x);
      case Fixed32Bit => BytesExtend(s, 4, x);
      case Fixed64Bit => BytesExtend(s, 8, x);
      case LengthDelimited => BlobExtend(s, x);
    }
  }

  lemma SkipRecordFacts(f: Field, wt: WireType, s: bytes, x: bytes)
    ensures Progress(s, SkipRecord(f, wt, s))
    ensures SkipRecord(f, wt, s).Got? ==> SkipRecord(f, wt, s + x) == Extend(SkipRecord(f, wt, s), x)
  {
    SkipLTypeFacts(f.ltype, s, x);
    BlobFrame(s);
    if IsPacked(f, wt) && SkipString(s).Got? {
      BlobExtend(s, x);
    }
  }

  /** A decoded scalar takes exactly the extent of its type. */
  lemma ScalarExtent(f: Field, s: bytes)
    ensures Progress(s, DecodeScalar(f, s))
    ensures DecodeScalar(f, s).Got? ==> SkipLType(f.ltype, s) == Got((), DecodeScalar(f, s).rest)
  {
    match f.ltype
    case LBool => Varint32Frame(s);
    case LFixed32 =>
    case LFixed64 =>
    case LSubmessage(_) =>
    case LExtension =>
    case _ =>
      if Packable(f.ltype) {
        VarintFrame(s);
      } else {
        BlobFrame(s);
      }
  }

  /** Once the extent of a scalar is complete, decoding it does not look further. */
  lemma ScalarExtend(f: Field, s: bytes, x: bytes)
    requires SkipLType(f.ltype, s).Got?
    ensures DecodeScalar(f, s + x) == Extend(DecodeScalar(f, s), x)
  {
    match WireTypeFor(f.ltype)
    case Varint => VarintExtend(s, x);
    case Fixed32Bit => BytesExtend(s, 4, x);
    case Fixed64Bit => BytesExtend(s, 8, x);
    case _ => BlobExtend(s, x);
  }

  // ---- Decoded scalars are well shaped ----

  lemma {:induction false} LittleEndianBound(s: bytes)
    ensures LittleEndianValue(s) < Pow2(8 * |s|)
  {
    if s != [] {
      PowAdd(8, 8 * (|s| - 1));
      assert Pow2(8) == 256;
      LittleEndianBound(s[1..]);
    }
  }

  lemma CastFits(t: LType, size: nat, v: nat)
    requires CastVarint(t, size, v).Some?
    ensures t.LUVarint? ==> FitsUnsigned(size, CastVarint(t, size, v).value)
    ensures !t.LUVarint? ==> FitsSigned(size, CastVarint(t, size, v).value)
  {
  }

  lemma DecodedFixedFits(n: nat, s: bytes)
    requires DecodeFixed(n, s).Got?
    ensures DecodeFixed(n, s).value.VInt? && 0 <= DecodeFixed(n, s).value.i < Pow2(8 * n)
  {
    LittleEndianBound(s[..n]);
  }

  lemma DecodedDataFits(f: Field, s: bytes)
    requires f.ltype.LBytes? || f.ltype.LString? || f.ltype.LFixedBytes?
    requires DecodeData(f, s).Got?
    ensures FitsExactly(f, DecodeData(f, s).value)
  {
  }

  lemma DecodedScalarFits(f: Field, s: bytes)
    requires DecodeScalar(f, s).Got?
    ensures FitsExactly(f, DecodeScalar(f, s).value)
  {
    if f.ltype.LFixed32? {
      DecodedFixedFits(4, s);
      WordPower(8 * 4);
    } else if f.ltype.LFixed64? {
      DecodedFixedFits(8, s);
      WordPower(8 * 8);
    } else if f.ltype.LVarint? || f.ltype.LUVarint? || f.ltype.LSVarint? {
      CastFits(f.ltype, f.dataSize, ReadVarint(s).value);
    } else if !f.ltype.LBool? {
      DecodedDataFits(f, s);
    }
  }

  // ---- Round trip of one scalar ----

  /** What a scalar reads back as: strings lose whatever follows their terminator. */
  function NormalScalar(f: Field, v: Value): Value {
    if f.ltype.LString? then VData(CString(DataOf(v))) else v
  }

  /** The encoder's own check of a scalar. */
  predicate EncodableScalar(f: Field, v: Value) {
    match f.ltype
    case LBytes => |DataOf(v)| + BYTES_OFFSET <= f.dataSize
    case LVarint => IsIntSize(f.dataSize)
    case LUVarint => IsIntSize(f.dataSize)
    case LSVarint => IsIntSize(f.dataSize)
    case LExtension => false
    case LSubmessage(_) => false
    case _ => true
  }

  /** A string leaves room for its terminator; nothing is asked of the other types. */
  predicate Terminated(f: Field, v: Value) {
    f.ltype.LString? ==> |CString(DataOf(v))| < f.dataSize
  }

  lemma CastRoundTrip(f: Field, i: int)
    requires f.ltype.LVarint? ==> FitsSigned(f.dataSize, i)
    requires f.ltype.LSVarint? ==> FitsSigned(f.dataSize, i)
    requires f.ltype.LUVarint? ==> FitsUnsigned(f.dataSize, i)
    ensures f.ltype.LVarint? ==> DecodeSigned(f.dataSize, i % TWO64) == Some(i)
    ensures f.ltype.LUVarint? ==> DecodeUnsigned(f.dataSize, i % TWO64) == Some(i)
    ensures f.ltype.LSVarint? ==> ZigZag(i) < TWO64 && DecodeZigZag(f.dataSize, ZigZag(i)) == Some(i)
  {
    if f.ltype.LVarint? {
      SignedRoundTrip(f.dataSize, i);
    }
  }

  lemma NegativeMod(i: int, w: int)
    requires -w <= i < 0
    ensures i % w == i + w
  {
  }

  /** A word of its own range is its own signed value. */
  lemma OwnWord(i: int, w: nat)
    requires w > 0 && w % 2 == 0 && -(w / 2) <= i < w / 2
    ensures ToSigned(i, w) == i
  {
    if i < 0 {
      NegativeMod(i, w);
    } else {
      SmallMod(i, w);
    }
  }

  /** The signed low half of a sign-extended word */
  lemma LowWord(i: int)
    requires -TWO31 <= i < TWO31
    ensures ToSigned(i % TWO64, TWO32) == i
  {
    if i < 0 {
      NegativeMod(i, TWO64);
      Varint32.Remainder(i + TWO64, TWO32 - 1, i + TWO32);
    } else {
      SmallMod(i, TWO64);
      SmallMod(i, TWO32);
    }
  }

  lemma WholeWord(i: int, w: nat)
    requires w > 0 && w % 2 == 0 && -(w / 2) <= i < w / 2
    ensures ToSigned(i % w, w) == i
  {
    OwnWord(i, w);
    SmallMod(i % w, w);
  }

  lemma SignedRoundTrip(size: nat, i: int)
    requires FitsSigned(size, i)
    ensures DecodeSigned(size, i % TWO64) == Some(i)
  {
    OwnWord(i, Width(size));
    if size == 8 {
      WholeWord(i, TWO64);
    } else {
      LowWord(i);
    }
  }

  lemma BlobRoundTrip(data: bytes, t: bytes)
    requires |data| < TWO32
    ensures ReadBlob(Blob(data) + t) == Got(data, t)
  {
    Varint32.AcceptsCanonical(|data|, data + t);
    assert Blob(data) + t == VarintBytes(|data|) + (data + t);
  }

  lemma FixedRoundTrip(n: nat, v: nat, t: bytes)
    requires v < Pow2(8 * n)
    ensures DecodeFixed(n, LittleEndian(n, v) + t) == Got(VInt(v), t)
  {
    LittleEndianRoundTrip(n, v);
    assert (LittleEndian(n, v) + t)[..n] == LittleEndian(n, v);
    assert (LittleEndian(n, v) + t)[n..] == t;
  }

  lemma ZeroBytesUnique(d: bytes)
    requires |d| == 0
    ensures d == ZeroBytes(0)
  {
  }

  lemma VarintFieldRoundTrip(f: Field, v: Value, t: bytes)
    requires ScalarShape(f, v) && (f.ltype.LVarint? || f.ltype.LUVarint? || f.ltype.LSVarint?)
    ensures DecodeVarintField(f, EncodeScalar(f, v) + t) == Got(v, t)
  {
    CastRoundTrip(f, v.i);
    if f.ltype.LSVarint? {
      assert ZigZag(v.i) % TWO64 == ZigZag(v.i);
      VarintRoundTrip(ZigZag(v.i), t);
    } else {
      VarintRoundTrip(v.i % TWO64, t);
    }
  }

  /** The data field accepts its own encoding, unless a string has no room for its terminator. */
  lemma AcceptRoundTrip(f: Field, v: Value, d: bytes)
    requires f.ltype.LBytes? || f.ltype.LString? || f.ltype.LFixedBytes?
    requires WellFormedField(f) && ScalarShape(f, v) && EncodableScalar(f, v) && |d| < TWO32
    requires d == if f.ltype.LString? then CString(v.data) else v.data
    ensures AcceptData(f, d) == if Terminated(f, v) then Some(d) else None
  {
    if |d| == 0 {
      ZeroBytesUnique(d);
    }
  }

  lemma DataRoundTrip(f: Field, v: Value, t: bytes)
    requires f.ltype.LBytes? || f.ltype.LString? || f.ltype.LFixedBytes?
    requires WellFormedField(f) && ScalarShape(f, v) && EncodableScalar(f, v)
    requires |EncodeScalar(f, v)| < TWO32
    ensures DecodeData(f, EncodeScalar(f, v) + t)
         == if Terminated(f, v) then Got(NormalScalar(f, v), t) else Fail
  {
    var d := if f.ltype.LString? then CString(v.data) else v.data;
    assert EncodeScalar(f, v) == Blob(d);
    BlobRoundTrip(d, t);
    AcceptRoundTrip(f, v, d);
  }

  lemma BoolRoundTrip(f: Field, v: Value, t: bytes)
    requires f.ltype.LBool? && v.VBool?
    ensures DecodeScalar(f, EncodeScalar(f, v) + t) == Got(v, t)
  {
    Varint32.AcceptsCanonical(if v.b then 1 else 0, t);
  }

  lemma WordRoundTrip(n: nat, v: nat, t: bytes)
    requires n == 4 || n == 8
    requires v < if n == 4 then TWO32 else TWO64
    ensures DecodeFixed(n, LittleEndian(n, v) + t) == Got(VInt(v), t)
  {
    WordPower(8 * n);
    FixedRoundTrip(n, v, t);
  }

  lemma FixedFieldRoundTrip(f: Field, v: Value, t: bytes)
    requires (f.ltype.LFixed32? || f.ltype.LFixed64?) && ScalarShape(f, v)
    ensures DecodeScalar(f, EncodeScalar(f, v) + t) == Got(v, t)
  {
    if f.ltype.LFixed32? {
      assert v.i % TWO32 == v.i;
      WordRoundTrip(4, v.i, t);
    } else {
      assert v.i % TWO64 == v.i;
      WordRoundTrip(8, v.i, t);
    }
  }

  /** A scalar reads back as itself exactly when its string, if it is one, leaves room for a terminator. */
  lemma ScalarRoundTrip(f: Field, v: Value, t: bytes)
    requires WellFormedField(f) && ScalarShape(f, v) && EncodableScalar(f, v)
    requires |EncodeScalar(f, v)| < TWO32
    ensures DecodeScalar(f, EncodeScalar(f, v) + t)
         == if Terminated(f, v) then Got(NormalScalar(f, v), t) else Fail
  {
    if f.ltype.LBool? {
      BoolRoundTrip(f, v, t);
    } else if f.ltype.LFixed32? || f.ltype.LFixed64? {
      FixedFieldRoundTrip(f, v, t);
    } else if Packable(f.ltype) {
      VarintFieldRoundTrip(f, v, t);
    } else {
      DataRoundTrip(f, v, t);
    }
  }

  lemma EncodedScalarNonEmpty(f: Field, v: Value)
    requires Packable(f.ltype) || f.ltype.LBytes? || f.ltype.LString? || f.ltype.LFixedBytes?
    ensures |EncodeScalar(f, v)| >= 1
  {
  }

  /** A zero default: what pb_check_proto3_default_value accepts for a scalar. */
  predicate IsZeroScalar(f: Field, v: Value) {
    match f.ltype
    case LBool => v != VBool(true)
    case LBytes => DataOf(v) == []
    case LString => CString(DataOf(v)) == []
    case LFixedBytes => f.dataSize == 0
    case _ => IntOf(v) == 0
  }
}
