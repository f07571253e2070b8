/**
 pb_ostream_t over a memory buffer, or over nothing when only the size is wanted. A stream may write
 only inside its window, from the place of its first byte up to max_size bytes further.
 */
module OutputStream {
  import opened Basics
  import opened Bits
  import opened Wire
  import opened Descriptor
  import opened Scalars

  datatype EncodeError = StreamFull | ArrayTooLong | BytesTooLong | InvalidType | SizeChanged

  /** `contents` with `data` written over it at `at`. */
  function Patched(contents: bytes, at: nat, data: bytes): (p: bytes)
    requires at + |data| <= |contents|
    ensures |p| == |contents|
  {
    contents[..at] + data + contents[at + |data|..]
  }

  /** The loop of pb_encode_varint: seven bits a byte, lowest first, the top bit cleared at the end. */
  method FillVarint(buffer: array<byte>, value: nat) returns (i: nat)
    requires buffer.Length == 10 && 128 <= value < TWO64
    modifies buffer
    ensures i <= 10 && buffer[..i] == VarintBytes(value)
  {
    i := 0;
    var v: nat := value;
    ghost var k: nat, done: bytes := 10, [];
    TenGroups(k);
    while v != 0
      invariant i + k == 10 && |done| == i && buffer[..i] == done
      invariant v < Pow128(k) && Pending(value, done, v)
      decreases v
    {
      VarintGroup(value, done, v, k);
      done := done + [v % 128 + 128];
      buffer[i] := v % 128 + 128;
      v := v / 128;
      i := i + 1;
      k := k - 1;
    }
    buffer[i - 1] := buffer[i - 1] % 128;
    assert buffer[..i] == done[..i - 1] + [done[i - 1] % 128];
  }

  /** The groups written so far, all marked as continued, and the rest of the value make up the varint. */
  ghost predicate Pending(value: nat, done: bytes, v: nat) {
    if v != 0 then VarintBytes(value) == done + VarintBytes(v)
    else |done| > 0 && VarintBytes(value) == done[..|done| - 1] + [done[|done| - 1] % 128]
  }

  /** One more group of seven bits. */
  lemma VarintGroup(value: nat, done: bytes, v: nat, k: nat)
    requires 0 < v < Pow128(k) && Pending(value, done, v)
    ensures k > 0 && v / 128 < Pow128(k - 1)
    ensures Pending(value, done + [v % 128 + 128], v / 128)
  {
    var done' := done + [v % 128 + 128];
    assert done'[..|done'| - 1] == done;
  }

  /** The state of a stream at one moment. */
  datatype Moment = Moment(sizing: bool, contents: bytes, state: nat, written: nat, maxSize: nat,
                           err: Option<EncodeError>) {

    predicate Valid() {
      !sizing ==> written <= maxSize && written <= state && Limit() <= |contents|
    }

    /** The end of the window. */
    function Limit(): int {
      state - written + maxSize
    }

    predicate Fits(n: nat) {
      sizing || written + n <= maxSize
    }
  }

  /** From s to t exactly `data` was appended. */
  predicate Wrote(s: Moment, t: Moment, data: bytes)
    requires s.Valid()
  {
    && t.Valid()
    && t.sizing == s.sizing
    && t.written == s.written + |data|
    && (!s.sizing ==>
          && t.maxSize == s.maxSize
          && t.state == s.state + |data|
          && t.contents == Patched(s.contents, s.state, data))
  }

  /** From s to t nothing outside the window was touched, and the window did not move. */
  predicate Confined(s: Moment, t: Moment)
    requires s.Valid()
  {
    && t.Valid()
    && t.sizing == s.sizing
    && (!s.sizing ==>
          && t.maxSize == s.maxSize
          && t.Limit() == s.Limit() && s.state <= t.state
          && |t.contents| == |s.contents|
          && t.contents[..s.state] == s.contents[..s.state]
          && t.contents[s.Limit()..] == s.contents[s.Limit()..])
  }

  /**
   What an encoding call guarantees, when `encoding` is what the value encodes to, if it encodes at all: the
   call succeeds exactly when there is an encoding and it fits the window, and then appends exactly those
   bytes; it never writes outside the window, and never is the first to report that a submessage changed its size.
   */
  predicate Appends(s: Moment, t: Moment, ok: bool, encoding: Option<bytes>)
    requires s.Valid()
  {
    && Confined(s, t)
    && (t.err == Some(SizeChanged) ==> s.err == Some(SizeChanged))
    && (ok <==> encoding.Some? && s.Fits(|encoding.value|))
    && (ok ==> Wrote(s, t, encoding.value))
  }

  /** Bytes already written, followed by what is still to come. */
  function Prepend(a: bytes, rest: Option<bytes>): Option<bytes> {
    if rest.None? then None else Some(a + rest.value)
  }

  // ---- Appending calls compose ----

  /** Two adjacent writes are one. */
  lemma PatchedTwice(contents: bytes, at: nat, a: bytes, b: bytes)
    requires at + |a| + |b| <= |contents|
    ensures Patched(Patched(contents, at, a), at + |a|, b) == Patched(contents, at, a + b)
  {
  }

  lemma ConfinedTwice(s: Moment, t: Moment, u: Moment)
    requires s.Valid() && Confined(s, t) && Confined(t, u)
    ensures Confined(s, u)
  {
    if !s.sizing {
      assert u.contents[..s.state] == u.contents[..t.state][..s.state];
      assert t.contents[..s.state] == t.contents[..t.state][..s.state];
    }
  }

  lemma AppendsNothing(s: Moment)
    requires s.Valid()
    ensures Appends(s, s, true, Some([]))
  {
  }

  /** One appending call after another. */
  lemma AppendsThen(s: Moment, t: Moment, u: Moment, a: bytes, ok: bool, b: Option<bytes>)
    requires s.Valid() && Appends(s, t, true, Some(a)) && Appends(t, u, ok, b)
    ensures Appends(s, u, ok, Prepend(a, b))
  {
    ConfinedTwice(s, t, u);
    if ok && !s.sizing {
      PatchedTwice(s.contents, s.state, a, b.value);
    }
  }

  /** What failed part of the way fails as a whole. */
  lemma AppendsFailed(s: Moment, t: Moment, part: Option<bytes>, whole: Option<bytes>)
    requires s.Valid() && Appends(s, t, false, part)
    requires whole.Some? ==> part.Some? && |part.value| <= |whole.value|
    ensures Appends(s, t, false, whole)
  {
  }

  lemma PrependTwice(a: bytes, b: bytes, rest: Option<bytes>)
    ensures Prepend(a + b, rest) == Prepend(a, Prepend(b, rest))
    ensures Prepend([], rest) == rest
  {
    if rest.Some? {
      assert a + b + rest.value == a + (b + rest.value);
      assert [] + rest.value == rest.value;
    }
  }

  class OStream {
    const buf: array?<byte>          // null: callback == NULL, nothing is written
    var state: nat
    var bytesWritten: nat
    var maxSize: nat
    var errmsg: Option<EncodeError>

    function Now(): Moment
      reads this, buf
    {
      Moment(buf == null, if buf == null then [] else buf[..], state, bytesWritten, maxSize, errmsg)
    }

    predicate Valid()
      reads this, buf
    {
      Now().Valid()
    }

    /** pb_ostream_from_buffer */
    constructor (buf: array<byte>)
      ensures Valid() && this.buf == buf && state == 0 && bytesWritten == 0 && maxSize == buf.Length && errmsg.None?
    {
      this.buf := buf;
      state, bytesWritten, maxSize, errmsg := 0, 0, buf.Length, None;
    }

    /** PB_OSTREAM_SIZING */
    constructor Sizing()
      ensures Valid() && buf == null && bytesWritten == 0 && errmsg.None?
    {
      buf := null;
      state, bytesWritten, maxSize, errmsg := 0, 0, 0, None;
    }

    /** The substream of pb_encode_submessage: the same buffer from here on, for `size` bytes. */
    constructor Window(stream: OStream, size: nat)
      requires stream.Valid() && stream.Now().Fits(size)
      ensures Valid() && buf == stream.buf && state == stream.state
      ensures bytesWritten == 0 && maxSize == size && errmsg.None?
    {
      buf := stream.buf;
      state, bytesWritten, maxSize, errmsg := stream.state, 0, size, None;
    }

    /** PB_RETURN_ERROR keeps the first message. */
    method SetError(e: EncodeError)
      modifies `errmsg
      ensures errmsg == if old(errmsg).None? then Some(e) else old(errmsg)
    {
      if errmsg.None? {
        errmsg := Some(e);
      }
    }

    /** buf_write */
    method BufWrite(data: bytes)
      requires buf != null && state + |data| <= buf.Length
      modifies `state, buf
      ensures state == old(state) + |data|
      ensures buf[..] == Patched(old(buf[..]), old(state), data)
    {
      var dest := state;
      state := state + |data|;
      var i := 0;
      while i < |data|
        invariant i <= |data| && state == dest + |data|
        invariant buf[..] == Patched(old(buf[..]), dest, data[..i])
        modifies buf
      {
        buf[dest + i] := data[i];
        i := i + 1;
      }
      assert data[..i] == data;
    }

    /** pb_write with data */
    method Write(data: bytes) returns (ok: bool)
      requires Valid()
      modifies this, buf
      ensures Appends(old(Now()), Now(), ok, Some(data))
    {
      if |data| > 0 && buf != null {
        if bytesWritten + |data| > maxSize {
          SetError(StreamFull);
          return false;
        }
        BufWrite(data);
      }
      bytesWritten := bytesWritten + |data|;
      return true;
    }

    /** pb_write(stream, NULL, count) on a stream that only counts; `data` is what would be written. */
    method Count(count: nat, ghost data: bytes)
      requires buf == null && count == |data|
      modifies `bytesWritten
      ensures Appends(old(Now()), Now(), true, Some(data))
    {
      bytesWritten := bytesWritten + count;
    }

    /** pb_encode_varint */
    method EncodeVarint(value: nat) returns (ok: bool)
      requires Valid() && value < TWO64
      modifies this, buf
      ensures Appends(old(Now()), Now(), ok, Some(VarintBytes(value)))
    {
      if value < 128 {
        ok := Write([value]);
        return;
      }
      var buffer := new byte[10] (_ => 0);
      var i := FillVarint(buffer, value);
      ok := Write(buffer[..i]);
    }

    /** pb_encode_svarint */
    method EncodeSVarint(value: int) returns (ok: bool)
      requires Valid() && -0x8000_0000_0000_0000 <= value < 0x8000_0000_0000_0000
      modifies this, buf
      ensures Appends(old(Now()), Now(), ok, Some(VarintBytes(ZigZag(value))))
    {
      // ~(value << 1) on the two's complement of a negative value
      var zigzagged := if value < 0 then TWO64 - 1 - (2 * (value + TWO64)) % TWO64 else 2 * value;
      ok := EncodeVarint(zigzagged);
    }

    /** pb_encode_fixed32 */
    method EncodeFixed32(value: nat) returns (ok: bool)
      requires Valid() && value < TWO32
      modifies this, buf
      ensures Appends(old(Now()), Now(), ok, Some(LittleEndian(4, value)))
    {
      var b := [ByteAt(value, 0), ByteAt(value, 8), ByteAt(value, 16), ByteAt(value, 24)];
      LittleEndianUnrolled(b, value);
      ok := Write(b);
    }

    /** pb_encode_fixed64 */
    method EncodeFixed64(value: nat) returns (ok: bool)
      requires Valid() && value < TWO64
      modifies this, buf
      ensures Appends(old(Now()), Now(), ok, Some(LittleEndian(8, value)))
    {
      var b := [ByteAt(value, 0), ByteAt(value, 8), ByteAt(value, 16), ByteAt(value, 24),
                ByteAt(value, 32), ByteAt(value, 40), ByteAt(value, 48), ByteAt(value, 56)];
      LittleEndianUnrolled(b, value);
      ok := Write(b);
    }

    /** pb_encode_tag */
    method EncodeTag(wt: WireType, tag: nat) returns (ok: bool)
      requires Valid() && tag < TWO32 && WireCode(wt) < 8
      modifies this, buf
      ensures Appends(old(Now()), Now(), ok, Some(TagBytes(tag, wt)))
    {
      ok := EncodeVarint(8 * tag + WireCode(wt));
    }

    /** pb_encode_string */
    method EncodeString(data: bytes) returns (ok: bool)
      requires Valid() && |data| < TWO64
      modifies this, buf
      ensures Appends(old(Now()), Now(), ok, Some(Blob(data)))
    {
      ok := EncodeVarint(|data|);
      if !ok {
        AppendsFailed(old(Now()), Now(), Some(VarintBytes(|data|)), Some(Blob(data)));
        return;
      }
      ghost var prefixed := Now();
      ok := Write(data);
      AppendsThen(old(Now()), prefixed, Now(), VarintBytes(|data|), ok, Some(data));
    }
  }

  // ---- The bytes of a word ----

  /** `(value >> shift) & 0xFF` */
  function ByteAt(value: nat, shift: nat): byte {
    ShiftRight(value, shift) % 256
  }

  lemma ShiftRightEight(w: nat, k: nat)
    ensures ShiftRight(w, k + 8) == ShiftRight(w / 256, k)
    ensures ShiftRight(w, 0) == w
  {
    assert ShiftRight(w, k + 8) == ShiftRight(w / 2, k + 7) == ShiftRight(w / 4, k + 6);
    assert ShiftRight(w / 4, k + 6) == ShiftRight(w / 8, k + 5) == ShiftRight(w / 16, k + 4);
    assert ShiftRight(w / 16, k + 4) == ShiftRight(w / 32, k + 3) == ShiftRight(w / 64, k + 2);
    assert ShiftRight(w / 64, k + 2) == ShiftRight(w / 128, k + 1) == ShiftRight(w / 256, k);
  }

  lemma {:induction false} LittleEndianUnrolled(b: bytes, value: nat)
    requires forall i | 0 <= i < |b| :: b[i] == ByteAt(value, 8 * i)
    ensures b == LittleEndian(|b|, value)
  {
    if b != [] {
      forall i | 0 <= i < |b| - 1 ensures b[1..][i] == ByteAt(value / 256, 8 * i) {
        ShiftRightEight(value, 8 * i);
      }
      ShiftRightEight(value, 0);
      LittleEndianUnrolled(b[1..], value / 256);
    }
  }
}
