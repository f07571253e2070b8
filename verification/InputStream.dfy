/**
 pb_istream_t over a memory buffer: the reading primitives as methods that move a position and a
 count of bytes left, each proved against the reader function of the wire level.
 */
module InputStream {
  import opened Basics
  import opened Bits
  import opened Wire
  import opened Descriptor
  import opened Scalars
  import opened Decoder
  import Varint32

  class IStream {
    const buf: bytes
    var state: nat
    var bytesLeft: nat

    predicate Valid()
      reads this
    {
      state + bytesLeft <= |buf|
    }

    /** The bytes still to be read. */
    function Remaining(): bytes
      requires Valid()
      reads this
    {
      buf[state..state + bytesLeft]
    }

    /** Where the stream ends; every successful read keeps it. */
    function End(): nat
      reads this
    {
      state + bytesLeft
    }

    /** pb_istream_from_buffer */
    constructor (buf: bytes)
      ensures Valid() && Remaining() == buf == this.buf
    {
      this.buf := buf;
      this.state := 0;
      this.bytesLeft := |buf|;
    }

    /** The struct copy that starts a substream. */
    constructor CopyOf(stream: IStream)
      ensures buf == stream.buf && state == stream.state && bytesLeft == stream.bytesLeft
    {
      this.buf := stream.buf;
      this.state := stream.state;
      this.bytesLeft := stream.bytesLeft;
    }

    /** buf_read: copies unless there is no destination. */
    method BufRead(dest: array?<byte>, count: nat)
      requires state + count <= |buf|
      requires dest != null ==> count <= dest.Length
      modifies `state, dest
      ensures state == old(state) + count
      ensures dest != null ==> dest[..] == buf[old(state)..old(state) + count] + old(dest[count..])
    {
      var source := state;
      state := state + count;
      if dest != null {
        var i := 0;
        while i < count
          invariant i <= count && state == source + count
          invariant forall k | 0 <= k < i :: dest[k] == buf[source + k]
          invariant forall k | i <= k < dest.Length :: dest[k] == old(dest[k])
          modifies dest
        {
          dest[i] := buf[source + i];
          i := i + 1;
        }
        assert dest[..count] == buf[source..source + count] && dest[count..] == old(dest[count..]);
      }
    }

    /** pb_read */
    method Read(dest: array?<byte>, count: nat) returns (ok: bool)
      requires Valid()
      requires dest != null ==> count <= dest.Length
      modifies this, dest
      ensures Valid() && End() == old(End())
      ensures ok <==> count <= old(bytesLeft)
      ensures ok ==> bytesLeft == old(bytesLeft) - count
      ensures ok ==> ReadBytes(old(Remaining()), count) == Got(old(Remaining())[..count], Remaining())
      ensures ok && dest != null ==> dest[..] == old(Remaining())[..count] + old(dest[count..])
      ensures !ok ==> Remaining() == old(Remaining()) && (dest != null ==> dest[..] == old(dest[..]))
    {
      if count == 0 {
        return true;
      }
      if bytesLeft < count {
        return false;
      }
      BufRead(dest, count);
      bytesLeft := bytesLeft - count;
      return true;
    }

    /** pb_readbyte */
    method ReadByte() returns (ok: bool, b: byte)
      requires Valid()
      modifies this
      ensures Valid() && End() == old(End())
      ensures ok <==> old(Remaining()) != []
      ensures ok ==> b == old(Remaining())[0] && Remaining() == old(Remaining())[1..]
      ensures ok ==> bytesLeft == old(bytesLeft) - 1
      ensures !ok ==> Remaining() == []
    {
      if bytesLeft == 0 {
        return false, 0;
      }
      b := buf[state];
      state := state + 1;
      bytesLeft := bytesLeft - 1;
      return true, b;
    }

    /** pb_decode_varint32_eof; `eof` tells that there was nothing to read. */
    method DecodeVarint32Eof() returns (ok: bool, value: nat, eof: bool)
      requires Valid()
      modifies this
      ensures Valid() && End() == old(End())
      ensures Agrees(ReadVarint32(old(Remaining())), ok, value, Remaining())
      ensures eof <==> old(Remaining()) == []
    {
      var b;
      value, eof := 0, false;
      ok, b := ReadByte();
      if !ok {
        eof := bytesLeft == 0;
        return;
      }
      if b < 128 {
        value := b;
        return;
      }
      var bitpos: nat := 7;
      var result: nat := b % 128;
      ghost var target := Varint32Tail(Remaining(), bitpos, result);
      var more := true;
      while more
        invariant Valid() && End() == old(End())
        invariant more ==> target == Varint32Tail(Remaining(), bitpos, result)
        invariant !more ==> target == if bitpos == 35 && b / 16 % 8 != 0 then Fail else Got(result, Remaining())
        decreases bytesLeft
      {
        ok, b := ReadByte();
        if !ok {
          return;
        }
        if bitpos >= 32 {
          var signExtension := if bitpos < 63 then 0xFF else 0x01;
          if b % 128 != 0 && (result < TWO31 || b != signExtension) {
            return false, 0, false;
          }
        } else {
          result := BitOr(result, ShiftLeft(b % 128, bitpos) % TWO32);
        }
        bitpos := (bitpos + 7) % 256;
        more := b >= 128;
      }
      if bitpos == 35 && b / 16 % 8 != 0 {
        return false, 0, false;
      }
      return true, result, false;
    }

    /** pb_decode_varint32 */
    method DecodeVarint32() returns (ok: bool, value: nat)
      requires Valid()
      modifies this
      ensures Valid() && End() == old(End())
      ensures Agrees(ReadVarint32(old(Remaining())), ok, value, Remaining())
    {
      var eof;
      ok, value, eof := DecodeVarint32Eof();
    }

    /** pb_decode_varint */
    method DecodeVarint() returns (ok: bool, value: nat)
      requires Valid()
      modifies this
      ensures Valid() && End() == old(End())
      ensures Agrees(ReadVarint(old(Remaining())), ok, value, Remaining())
    {
      var bitpos: nat, result: nat := 0, 0;
      ghost var acc: nat, limit: nat := 0, 10;
      ghost var target := Digits(Remaining(), limit);
      AfterNothing(target);
      var more := true;
      while more
        invariant Valid() && End() == old(End())
        invariant more ==> Reading(target, Remaining(), bitpos, limit, result, acc)
        invariant !more ==> target == Got(acc, Remaining()) && result == acc % TWO64
        decreases bytesLeft
      {
        if bitpos >= 64 {
          return false, 0;
        }
        var b;
        ghost var before := Remaining();
        ok, b := ReadByte();
        if !ok {
          return false, 0;
        }
        acc := NextGroup(target, before, bitpos, limit, result, acc);
        limit := limit - 1;
        result := BitOr(result, ShiftLeft(b % 128, bitpos) % TWO64);
        bitpos := bitpos + 7;
        more := b >= 128;
      }
      return true, result;
    }

    /** pb_skip_varint */
    method SkipVarintBytes() returns (ok: bool)
      requires Valid()
      modifies this
      ensures Valid() && End() == old(End())
      ensures Agrees(SkipVarint(old(Remaining())), ok, (), Remaining())
    {
      ghost var target := SkipVarint(Remaining());
      var b := new byte[1] [0];
      var more := true;
      while more
        invariant Valid() && End() == old(End())
        invariant more ==> target == SkipVarint(Remaining())
        invariant !more ==> target == Got((), Remaining())
        modifies this, b
        decreases bytesLeft
      {
        ok := Read(b, 1);
        if !ok {
          return;
        }
        more := b[0] >= 128;
      }
      return true;
    }

    /** pb_skip_string */
    method SkipStringBytes() returns (ok: bool)
      requires Valid()
      modifies this
      ensures Valid() && End() == old(End())
      ensures Agrees(SkipString(old(Remaining())), ok, (), Remaining())
    {
      var length;
      ok, length := DecodeVarint32();
      if ok {
        ok := Read(null, length);
      }
    }

    /** pb_decode_tag; `eof` is also the sign of a zero terminator. */
    method DecodeTag() returns (ok: bool, wt: WireType, tag: nat, eof: bool)
      requires Valid()
      modifies this
      ensures Valid() && End() == old(End())
      ensures ok ==> ReadTag(old(Remaining())) == Tag(tag, wt, Remaining())
      ensures !ok && !eof ==> ReadTag(old(Remaining())) == BadTag
      ensures !ok && eof ==> old(Remaining()) == [] || ReadTag(old(Remaining())) == EndMark(Remaining())
    {
      wt, tag := Varint, 0;
      var temp;
      ok, temp, eof := DecodeVarint32Eof();
      if !ok {
        return;
      }
      if temp == 0 {
        return false, wt, tag, true;
      }
      tag := temp / 8;
      wt := WireTypeOf(temp % 8);
    }

    /** pb_skip_field */
    method SkipFieldBytes(wt: WireType) returns (ok: bool)
      requires Valid()
      modifies this
      ensures Valid() && End() == old(End())
      ensures Agrees(SkipField(wt, old(Remaining())), ok, (), Remaining())
    {
      match wt
      case Varint => ok := SkipVarintBytes();
      case Fixed64Bit => ok := Read(null, 8);
      case LengthDelimited => ok := SkipStringBytes();
      case Fixed32Bit => ok := Read(null, 4);
      case Other(_) => ok := false;
    }

    /** The end of pb_make_string_substream: the copy keeps the first `size` bytes, the parent what follows them. */
    method CutFrame(substream: IStream, size: nat) returns (ok: bool)
      requires Valid() && substream != this && substream.Valid()
      requires substream.buf == buf && substream.state == state && substream.bytesLeft == bytesLeft
      modifies this, substream
      ensures substream.Valid() && state == old(state) && state + bytesLeft <= old(End())
      ensures ok <==> size <= |old(Remaining())|
      ensures ok ==> substream.Remaining() == old(Remaining())[..size] && substream.bytesLeft == size
                     && substream.End() + bytesLeft == old(End())
                     && buf[substream.End()..old(End())] == old(Remaining())[size..]
    {
      if substream.bytesLeft < size {
        return false;
      }
      SplitFrame(buf, state, state + size, state + bytesLeft);
      substream.bytesLeft := size;
      bytesLeft := bytesLeft - size;
      ok := true;
    }

    /** pb_make_string_substream: the substream holds the frame, the parent only what follows it. */
    method MakeStringSubstream() returns (ok: bool, substream: IStream)
      requires Valid()
      modifies this
      ensures fresh(substream) && substream.Valid() && substream.buf == buf
      ensures ok <==> ReadBlob(old(Remaining())).Got?
      ensures ok ==> substream.Remaining() == ReadBlob(old(Remaining())).value
                     && substream.End() + bytesLeft == old(End())
                     && buf[substream.End()..old(End())] == ReadBlob(old(Remaining())).rest
      ensures state + bytesLeft <= old(End())
      ensures ok ==> substream.bytesLeft < old(bytesLeft)
    {
      var size;
      ghost var before := Remaining();
      ok, size := DecodeVarint32();
      LengthRead(before, ok, size, Remaining());
      substream := new IStream.CopyOf(this);
      if ok {
        ok := CutFrame(substream, size);
      }
    }

    /** pb_close_string_substream: skips what was left of the frame and takes over its position. */
    method CloseStringSubstream(substream: IStream) returns (ok: bool)
      requires substream != this && substream.Valid() && substream.buf == buf
      requires substream.End() + bytesLeft <= |buf|
      modifies this, substream
      ensures ok && Valid()
      ensures state == old(substream.End()) && bytesLeft == old(bytesLeft)
    {
      ok := true;
      if substream.bytesLeft != 0 {
        ok := substream.Read(null, substream.bytesLeft);
      }
      if ok {
        state := substream.state;
      }
    }

    /** pb_decode_svarint */
    method DecodeSVarint() returns (ok: bool, value: int)
      requires Valid()
      modifies this
      ensures Valid() && End() == old(End())
      ensures ok ==> ReadVarint(old(Remaining())).Got?
                     && value == UnZigZag(ReadVarint(old(Remaining())).value)
                     && Remaining() == ReadVarint(old(Remaining())).rest
      ensures !ok ==> ReadVarint(old(Remaining())).Fail?
    {
      var z;
      value := 0;
      ok, z := DecodeVarint();
      if ok {
        // ~(z >> 1) as a signed number
        var half: int := z / 2;
        value := if z % 2 == 1 then -half - 1 else half;
      }
    }

    /** pb_decode_fixed32 */
    method DecodeFixed32() returns (ok: bool, value: nat)
      requires Valid()
      modifies this
      ensures Valid() && End() == old(End())
      ensures Agrees(DecodeFixed(4, old(Remaining())), ok, VInt(value), Remaining())
    {
      var b := new byte[4] (_ => 0);
      ghost var before := Remaining();
      value := 0;
      ok := Read(b, 4);
      if ok {
        assert b[..] == before[..4];
        OrFour(b[..]);
        value := BitOr(BitOr(BitOr(b[0], ShiftLeft(b[1], 8)), ShiftLeft(b[2], 16)), ShiftLeft(b[3], 24));
      }
    }

    /** pb_decode_fixed64 */
    method DecodeFixed64() returns (ok: bool, value: nat)
      requires Valid()
      modifies this
      ensures Valid() && End() == old(End())
      ensures Agrees(DecodeFixed(8, old(Remaining())), ok, VInt(value), Remaining())
    {
      var b := new byte[8] (_ => 0);
      ghost var before := Remaining();
      value := 0;
      ok := Read(b, 8);
      if ok {
        assert b[..] == before[..8];
        OrEight(b[..]);
        var low := BitOr(BitOr(BitOr(b[0], ShiftLeft(b[1], 8)), ShiftLeft(b[2], 16)), ShiftLeft(b[3], 24));
        value := BitOr(BitOr(BitOr(BitOr(low, ShiftLeft(b[4], 32)), ShiftLeft(b[5], 40)),
                             ShiftLeft(b[6], 48)), ShiftLeft(b[7], 56));
      }
    }
  }

  lemma SplitFrame(buf: bytes, a: nat, b: nat, c: nat)
    requires a <= b <= c <= |buf|
    ensures buf[a..c][..b - a] == buf[a..b] && buf[a..c][b - a..] == buf[b..c]
  {
  }

  /** After the length was read, the frame is there exactly when enough bytes are left. */
  lemma LengthRead(before: bytes, ok: bool, size: nat, rest: bytes)
    requires Agrees(ReadVarint32(before), ok, size, rest)
    ensures !ok ==> ReadBlob(before) == Fail
    ensures ok ==> |rest| < |before|
    ensures ok ==> ReadBlob(before) == if |rest| < size then Fail else Got(rest[..size], rest[size..])
  {
    if ok {
      Varint32Frame(before);
    }
  }

  // ---- The accumulator of pb_decode_varint ----

  /** Digits still to come, on top of those accumulated below bit `bitpos`. */
  ghost function After(acc: nat, bitpos: nat, r: Read<nat>): Read<nat> {
    match r
    case Fail => Fail
    case Got(v, rest) => Got(acc + ShiftLeft(v, bitpos), rest)
  }

  lemma {:induction false} ShiftIsMultiple(b: nat, k: nat)
    ensures ShiftLeft(b, k) == b * Pow2(k)
  {
    if k > 0 {
      ShiftIsMultiple(b, k - 1);
    }
  }

  /** At bit 63 only the lowest bit of a group stays inside 64 bits. */
  lemma TopGroup(b: nat, k: nat)
    requires k == 63
    ensures ShiftLeft(b, k) == ShiftLeft(b % 2, k) + TWO64 * (b / 2)
  {
    ShiftLeftAdd(b % 2, 2 * (b / 2), k);
    ShiftIsMultiple(2 * (b / 2), k);
    WordPower(k + 1);
    assert 2 * Pow2(k) == Pow2(k + 1);
  }

  /** The part of a group of seven that stays inside 64 bits. */
  lemma KeptGroup(b: nat, pos: nat) returns (kept: nat, over: nat)
    requires pos <= 57 || pos == 63
    requires b < 128
    ensures ShiftLeft(b, pos) == ShiftLeft(kept, pos) + TWO64 * over
    ensures ShiftLeft(kept, pos) + Pow2(pos) <= TWO64
  {
    var word := 64;
    WordPower(word);
    if pos == 63 {
      kept, over := b % 2, b / 2;
      TopGroup(b, pos);
      ShiftLeftBelow(kept, 2, pos);
      ShiftOne(pos + 1);
      ShiftTwo(pos);
    } else {
      kept, over := b, 0;
      Varint32.GroupBound(b, pos);
      PowMonotone(pos + 7, word);
    }
  }

  lemma {:induction false} ShiftTwo(k: nat)
    ensures ShiftLeft(2, k) == ShiftLeft(1, k + 1)
  {
    if k > 0 {
      ShiftTwo(k - 1);
    }
  }

  /** One step of pb_decode_varint: the OR adds the next group of seven bits, modulo 2^64. */
  lemma VarintStep(acc: nat, b: nat, pos: nat)
    requires pos <= 57 || pos == 63
    requires acc < Pow2(pos) && b < 128
    ensures BitOr(acc % TWO64, ShiftLeft(b, pos) % TWO64) == (acc + ShiftLeft(b, pos)) % TWO64
  {
    var kept, over := KeptGroup(b, pos);
    OrDisjoint(acc, kept, pos);
    OrOfWords(acc, ShiftLeft(kept, pos), ShiftLeft(b, pos), over);
  }

  lemma OrOfWords(acc: nat, low: nat, group: nat, over: nat)
    requires group == low + TWO64 * over && acc + low < TWO64 && BitOr(acc, low) == acc + low
    ensures BitOr(acc % TWO64, group % TWO64) == (acc + group) % TWO64
  {
    SumMod(acc, low, group, over);
  }

  lemma SumMod(acc: nat, low: nat, group: nat, over: nat)
    requires group == low + TWO64 * over && acc + low < TWO64
    ensures acc % TWO64 == acc && group % TWO64 == low && (acc + group) % TWO64 == acc + low
  {
  }

  lemma AfterNothing(r: Read<nat>)
    ensures r == After(0, 0, r)
  {
    if r.Got? {
      assert ShiftLeft(r.value, 0) == r.value;
    }
  }

  /** Moving seven bits from the digits to come to the accumulator. */
  lemma AfterStep(target: Read<nat>, acc: nat, acc': nat, bitpos: nat, s: bytes, limit: nat)
    requires s != [] && limit > 0 && target == After(acc, bitpos, Digits(s, limit))
    requires acc' == acc + ShiftLeft(s[0] % 128, bitpos)
    ensures s[0] < 128 ==> target == Got(acc', s[1..])
    ensures s[0] >= 128 ==> target == After(acc', bitpos + 7, Digits(s[1..], limit - 1))
  {
    assert s[0] < 128 ==> s[0] % 128 == s[0];
    assert s[0] >= 128 ==> s[0] % 128 == s[0] - 128;
    if s[0] >= 128 && Digits(s[1..], limit - 1).Got? {
      var v := Digits(s[1..], limit - 1).value;
      ShiftLeftAdd(s[0] - 128, 128 * v, bitpos);
      ShiftLeftSeven(v, bitpos);
    }
  }

  /** Between two turns of the loop: `result` holds the groups read so far, modulo 2^64. */
  ghost predicate Reading(target: Read<nat>, s: bytes, bitpos: nat, limit: nat, result: nat, acc: nat) {
    && bitpos + 7 * limit == 70
    && acc < Pow2(bitpos) && result == acc % TWO64
    && target == After(acc, bitpos, Digits(s, limit))
  }

  lemma SumBelow(acc: nat, b: nat, pos: nat)
    requires acc < Pow2(pos) && b < 128
    ensures acc + ShiftLeft(b, pos) < Pow2(pos + 7)
  {
    Varint32.GroupBound(b, pos);
  }

  /** One turn of the loop of pb_decode_varint. */
  lemma NextGroup(target: Read<nat>, s: bytes, bitpos: nat, limit: nat, result: nat, acc: nat) returns (acc': nat)
    requires s != [] && bitpos < 64 && Reading(target, s, bitpos, limit, result, acc)
    ensures limit > 0 && BitOr(result, ShiftLeft(s[0] % 128, bitpos) % TWO64) == acc' % TWO64
    ensures s[0] >= 128 ==> Reading(target, s[1..], bitpos + 7, limit - 1, acc' % TWO64, acc')
    ensures s[0] < 128 ==> target == Got(acc', s[1..])
  {
    var b := s[0] % 128;
    acc' := acc + ShiftLeft(b, bitpos);
    AfterStep(target, acc, acc', bitpos, s, limit);
    VarintStep(acc, b, bitpos);
    SumBelow(acc, b, bitpos);
  }

  // ---- Fixed-width words ----

  /** The first n bytes ORed together, each shifted to its place. */
  ghost function OrBytes(s: bytes, n: nat): nat
    requires n <= |s|
  {
    if n == 0 then 0 else if n == 1 then s[0] else BitOr(OrBytes(s, n - 1), ShiftLeft(s[n - 1], 8 * (n - 1)))
  }

  lemma {:induction false} LittleEndianAppend(s: bytes, b: byte)
    ensures LittleEndianValue(s + [b]) == LittleEndianValue(s) + ShiftLeft(b, 8 * |s|)
    ensures LittleEndianValue(s) < Pow2(8 * |s|)
  {
    if s != [] {
      assert (s + [b])[1..] == s[1..] + [b];
      LittleEndianAppend(s[1..], b);
      ByteShift(b, 8 * (|s| - 1));
    }
  }

  lemma ByteShift(b: nat, k: nat)
    ensures ShiftLeft(b, k + 8) == 256 * ShiftLeft(b, k)
    ensures Pow2(k + 8) == 256 * Pow2(k)
  {
    ShiftLeftSeven(b, k);
  }

  lemma {:induction false} OrIsLittleEndian(s: bytes, n: nat)
    requires n <= |s|
    ensures OrBytes(s, n) == LittleEndianValue(s[..n])
  {
    if n > 0 {
      OrIsLittleEndian(s, n - 1);
      assert s[..n] == s[..n - 1] + [s[n - 1]];
      LittleEndianAppend(s[..n - 1], s[n - 1]);
      OrDisjoint(LittleEndianValue(s[..n - 1]), s[n - 1], 8 * (n - 1));
    }
  }

  lemma OrFour(s: bytes)
    requires |s| == 4
    ensures BitOr(BitOr(BitOr(s[0], ShiftLeft(s[1], 8)), ShiftLeft(s[2], 16)), ShiftLeft(s[3], 24))
            == LittleEndianValue(s)
  {
    OrIsLittleEndian(s, |s|);
    assert s[..|s|] == s;
    OrUnrolled(s);
  }

  lemma OrUnrolled(s: bytes)
    requires |s| >= 4
    ensures OrBytes(s, 4) == BitOr(BitOr(BitOr(s[0], ShiftLeft(s[1], 8)), ShiftLeft(s[2], 16)), ShiftLeft(s[3], 24))
  {
    assert OrBytes(s, 1) == s[0];
    assert OrBytes(s, 2) == BitOr(s[0], ShiftLeft(s[1], 8));
    assert OrBytes(s, 3) == BitOr(OrBytes(s, 2), ShiftLeft(s[2], 16));
  }

  lemma OrEight(s: bytes)
    requires |s| == 8
    ensures BitOr(BitOr(BitOr(BitOr(OrBytes(s, 4), ShiftLeft(s[4], 32)), ShiftLeft(s[5], 40)),
                        ShiftLeft(s[6], 48)), ShiftLeft(s[7], 56)) == LittleEndianValue(s)
    ensures OrBytes(s, 4) == BitOr(BitOr(BitOr(s[0], ShiftLeft(s[1], 8)), ShiftLeft(s[2], 16)), ShiftLeft(s[3], 24))
  {
    OrIsLittleEndian(s, |s|);
    assert s[..|s|] == s;
    OrUnrolled(s);
    assert OrBytes(s, 5) == BitOr(OrBytes(s, 4), ShiftLeft(s[4], 32));
    assert OrBytes(s, 6) == BitOr(OrBytes(s, 5), ShiftLeft(s[5], 40));
    assert OrBytes(s, 7) == BitOr(OrBytes(s, 6), ShiftLeft(s[6], 48));
    assert OrBytes(s, 8) == BitOr(OrBytes(s, 7), ShiftLeft(s[7], 56));
  }
}
