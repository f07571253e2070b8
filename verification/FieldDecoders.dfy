/**
 The pb_dec_* functions for fields that do not nest. Each reads from the stream and fills the
 destination, which is handed back as a value; byte and string buffers are arrays of the field's size.
 */
module FieldDecoders {
  import opened Basics
  import opened Bits
  import opened Wire
  import opened Descriptor
  import opened Scalars
  import opened InputStream

  /** pb_dec_bool */
  method DecBool(stream: IStream, f: Field) returns (ok: bool, v: Value)
    requires stream.Valid() && f.ltype.LBool?
    modifies stream
    ensures stream.Valid() && stream.End() == old(stream.End())
    ensures Agrees(DecodeScalar(f, old(stream.Remaining())), ok, v, stream.Remaining())
  {
    var value;
    ok, value := stream.DecodeVarint32();
    v := VBool(value != 0);
  }

  /** pb_dec_varint: fields of 32 bits or less are cast to int32 first. */
  method DecVarint(stream: IStream, f: Field) returns (ok: bool, v: Value)
    requires stream.Valid() && f.ltype.LVarint?
    modifies stream
    ensures stream.Valid() && stream.End() == old(stream.End())
    ensures Agrees(DecodeScalar(f, old(stream.Remaining())), ok, v, stream.Remaining())
  {
    var value;
    ok, value := stream.DecodeVarint();
    v := VInt(0);
    if ok {
      var svalue := ToSigned(value, if f.dataSize == 8 then TWO64 else TWO32);
      ok, v := StoreSigned(f, svalue);
    }
  }

  /** The cast to the size of the field, with its overflow check. */
  method StoreSigned(f: Field, svalue: int) returns (ok: bool, v: Value)
    ensures ok <==> IsIntSize(f.dataSize) && ToSigned(svalue, Width(f.dataSize)) == svalue
    ensures ok ==> v == VInt(svalue)
  {
    var clamped := 0;
    if f.dataSize == 8 {
      clamped := ToSigned(svalue, TWO64);
    } else if f.dataSize == 4 {
      clamped := ToSigned(svalue, TWO32);
    } else if f.dataSize == 2 {
      clamped := ToSigned(svalue, 0x1_0000);
    } else if f.dataSize == 1 {
      clamped := ToSigned(svalue, 0x100);
    } else {
      return false, VInt(0);
    }
    v := VInt(clamped);
    ok := clamped == svalue;
  }

  /** pb_dec_uvarint */
  method DecUVarint(stream: IStream, f: Field) returns (ok: bool, v: Value)
    requires stream.Valid() && f.ltype.LUVarint?
    modifies stream
    ensures stream.Valid() && stream.End() == old(stream.End())
    ensures Agrees(DecodeScalar(f, old(stream.Remaining())), ok, v, stream.Remaining())
  {
    var value;
    ok, value := stream.DecodeVarint();
    v := VInt(0);
    if !ok {
      return;
    }
    var clamped := 0;
    if f.dataSize == 8 {
      clamped := value % TWO64;
    } else if f.dataSize == 4 {
      clamped := value % TWO32;
    } else if f.dataSize == 2 {
      clamped := value % 0x1_0000;
    } else if f.dataSize == 1 {
      clamped := value % 0x100;
    } else {
      return false, VInt(0);
    }
    v := VInt(clamped);
    ok := clamped == value;
  }

  /** pb_dec_svarint */
  method DecSVarint(stream: IStream, f: Field) returns (ok: bool, v: Value)
    requires stream.Valid() && f.ltype.LSVarint?
    modifies stream
    ensures stream.Valid() && stream.End() == old(stream.End())
    ensures Agrees(DecodeScalar(f, old(stream.Remaining())), ok, v, stream.Remaining())
  {
    var value;
    ok, value := stream.DecodeSVarint();
    v := VInt(0);
    if ok {
      ok, v := StoreSigned(f, value);
    }
  }

  /** pb_dec_bytes */
  method DecBytes(stream: IStream, f: Field) returns (ok: bool, v: Value)
    requires stream.Valid() && f.ltype.LBytes?
    modifies stream
    ensures stream.Valid() && stream.End() == old(stream.End())
    ensures Agrees(DecodeScalar(f, old(stream.Remaining())), ok, v, stream.Remaining())
  {
    var size;
    v := VData([]);
    ok, size := stream.DecodeVarint32();
    if !ok {
      return;
    }
    var allocSize := size + BYTES_OFFSET;
    if size > SIZE_MAX || allocSize > f.dataSize {
      return false, v;
    }
    var data := new byte[f.dataSize - BYTES_OFFSET] (_ => 0);
    ok := stream.Read(data, size);
    v := VData(data[..size]);
  }

  /** pb_dec_string: the terminator is written inside the buffer. */
  method DecString(stream: IStream, f: Field) returns (ok: bool, v: Value)
    requires stream.Valid() && f.ltype.LString?
    modifies stream
    ensures stream.Valid() && stream.End() == old(stream.End())
    ensures Agrees(DecodeScalar(f, old(stream.Remaining())), ok, v, stream.Remaining())
  {
    var size;
    v := VData([]);
    ok, size := stream.DecodeVarint32();
    if !ok {
      return;
    }
    var allocSize := (size + 1) % TWO32;
    if allocSize < size || allocSize > f.dataSize {
      return false, v;
    }
    var data := new byte[f.dataSize] (_ => 0);
    ok := stream.Read(data, size);
    data[size] := 0;
    v := VData(data[..size]);
  }

  /** pb_dec_fixed_length_bytes: an empty blob stands for all zeros. */
  method DecFixedLengthBytes(stream: IStream, f: Field) returns (ok: bool, v: Value)
    requires stream.Valid() && f.ltype.LFixedBytes?
    modifies stream
    ensures stream.Valid() && stream.End() == old(stream.End())
    ensures Agrees(DecodeScalar(f, old(stream.Remaining())), ok, v, stream.Remaining())
  {
    var size;
    v := VData([]);
    ok, size := stream.DecodeVarint32();
    if !ok {
      return;
    }
    if size > SIZE_MAX {
      return false, v;
    }
    var data := new byte[f.dataSize] (_ => 0);
    if size == 0 {
      assert data[..] == ZeroBytes(f.dataSize);
      return true, VData(data[..]);
    }
    if size != f.dataSize {
      return false, v;
    }
    ghost var frame := stream.Remaining();
    ok := stream.Read(data, f.dataSize);
    assert ok ==> data[..] == frame[..size];
    v := VData(data[..]);
  }

  /** The entry of PB_DECODERS for a type that does not nest. */
  method DecScalar(stream: IStream, f: Field) returns (ok: bool, v: Value)
    requires stream.Valid() && !f.ltype.LSubmessage? && !f.ltype.LExtension?
    modifies stream
    ensures stream.Valid() && stream.End() == old(stream.End())
    ensures Agrees(DecodeScalar(f, old(stream.Remaining())), ok, v, stream.Remaining())
  {
    var word;
    match f.ltype
    case LBool => ok, v := DecBool(stream, f);
    case LVarint => ok, v := DecVarint(stream, f);
    case LUVarint => ok, v := DecUVarint(stream, f);
    case LSVarint => ok, v := DecSVarint(stream, f);
    case LFixed32 =>
      ok, word := stream.DecodeFixed32();
      v := VInt(word);
    case LFixed64 =>
      ok, word := stream.DecodeFixed64();
      v := VInt(word);
    case LBytes => ok, v := DecBytes(stream, f);
    case LString => ok, v := DecString(stream, f);
    case LFixedBytes => ok, v := DecFixedLengthBytes(stream, f);
  }
}
