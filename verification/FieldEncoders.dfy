/**
 The pb_enc_* functions for fields that do not nest. Each either appends exactly the bytes of
 EncodeScalar or reports that the value is not encodable or the stream is full.
 */
module FieldEncoders {
  import opened Basics
  import opened Bits
  import opened Descriptor
  import opened Scalars
  import opened OutputStream

  /** What a scalar encodes to, unless the encoder reports an error. */
  function ScalarEncoding(f: Field, v: Value): Option<bytes> {
    if EncodableScalar(f, v) then Some(EncodeScalar(f, v)) else None
  }

  /** pb_enc_bool */
  method EncBool(stream: OStream, f: Field, v: Value) returns (ok: bool)
    requires stream.Valid() && f.ltype.LBool? && v.VBool?
    modifies stream, stream.buf
    ensures Appends(old(stream.Now()), stream.Now(), ok, ScalarEncoding(f, v))
  {
    ok := stream.EncodeVarint(if v.b then 1 else 0);
  }

  /** pb_enc_varint, pb_enc_uvarint and pb_enc_svarint */
  method EncInteger(stream: OStream, f: Field, v: Value) returns (ok: bool)
    requires stream.Valid() && (f.ltype.LVarint? || f.ltype.LUVarint? || f.ltype.LSVarint?) && ScalarShape(f, v)
    modifies stream, stream.buf
    ensures Appends(old(stream.Now()), stream.Now(), ok, ScalarEncoding(f, v))
  {
    if f.ltype.LSVarint? {
      ok := stream.EncodeSVarint(v.i);
    } else {
      ok := stream.EncodeVarint(v.i % TWO64);
    }
  }

  /** pb_enc_fixed32 and pb_enc_fixed64 */
  method EncFixed(stream: OStream, f: Field, v: Value) returns (ok: bool)
    requires stream.Valid() && (f.ltype.LFixed32? || f.ltype.LFixed64?) && ScalarShape(f, v)
    modifies stream, stream.buf
    ensures Appends(old(stream.Now()), stream.Now(), ok, ScalarEncoding(f, v))
  {
    if f.ltype.LFixed32? {
      assert v.i % TWO32 == v.i;
      ok := stream.EncodeFixed32(v.i);
    } else {
      assert v.i % TWO64 == v.i;
      ok := stream.EncodeFixed64(v.i);
    }
  }

  /** pb_enc_bytes */
  method EncBytes(stream: OStream, f: Field, v: Value) returns (ok: bool)
    requires stream.Valid() && f.ltype.LBytes? && ScalarShape(f, v)
    modifies stream, stream.buf
    ensures Appends(old(stream.Now()), stream.Now(), ok, ScalarEncoding(f, v))
  {
    var allocsize := |v.data| + BYTES_OFFSET;
    if allocsize > f.dataSize {
      stream.SetError(BytesTooLong);
      return false;
    }
    ok := stream.EncodeString(v.data);
  }

  /** The strnlen loop of pb_enc_string; past its contents a string buffer holds the terminator. */
  method StringLength(data: bytes, maxSize: nat) returns (size: nat)
    requires |data| <= maxSize
    ensures size <= |data| && data[..size] == CString(data)
  {
    size := 0;
    while size < maxSize && size < |data| && data[size] != 0
      invariant size <= |data|
      invariant CString(data) == data[..size] + CString(data[size..])
    {
      assert data[size..][1..] == data[size + 1..];
      size := size + 1;
    }
    assert CString(data[size..]) == [];
  }

  /** pb_enc_string: up to the terminator or the end of the buffer */
  method EncString(stream: OStream, f: Field, v: Value) returns (ok: bool)
    requires stream.Valid() && f.ltype.LString? && ScalarShape(f, v) && f.dataSize <= SIZE_MAX
    modifies stream, stream.buf
    ensures Appends(old(stream.Now()), stream.Now(), ok, ScalarEncoding(f, v))
  {
    var size := StringLength(v.data, f.dataSize);
    ok := stream.EncodeString(v.data[..size]);
  }

  /** The entry of PB_ENCODERS for a type that does not nest. */
  method EncScalar(stream: OStream, f: Field, v: Value) returns (ok: bool)
    requires stream.Valid() && ScalarShape(f, v) && WellFormedField(f)
    modifies stream, stream.buf
    ensures Appends(old(stream.Now()), stream.Now(), ok, ScalarEncoding(f, v))
  {
    if f.ltype.LBool? {
      ok := EncBool(stream, f, v);
    } else if f.ltype.LFixed32? || f.ltype.LFixed64? {
      ok := EncFixed(stream, f, v);
    } else if f.ltype.LBytes? {
      ok := EncBytes(stream, f, v);
    } else if f.ltype.LString? {
      ok := EncString(stream, f, v);
    } else if f.ltype.LFixedBytes? {
      ok := stream.EncodeString(v.data);
    } else {
      ok := EncInteger(stream, f, v);
    }
  }
}
