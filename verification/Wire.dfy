/**
 The wire level: base-128 varints, fixed-width words and length-prefixed blobs, as functions
 on byte sequences. A reader takes the bytes that are left and returns what remains after it.
 */
module Wire {
  import opened Basics
  import opened Bits

  datatype Read<+T> = Fail | Got(value: T, rest: bytes)

  /** The same read when more bytes follow. */
  function Extend<T>(r: Read<T>, t: bytes): Read<T> {
    match r
    case Fail => Fail
    case Got(v, rest) => Got(v, rest + t)
  }

  /** What is left after a successful read is a proper suffix of the input. */
  ghost predicate Progress<T>(s: bytes, r: Read<T>) {
    r.Got? ==> |r.rest| < |s| && r.rest == s[|s| - |r.rest|..]
  }

  /** A decoding call reported success or failure, its value and what it left as `r` says. */
  predicate Agrees<T(==)>(r: Read<T>, ok: bool, value: T, rest: bytes) {
    if ok then r == Got(value, rest) else r.Fail?
  }

  // ---- Writers ----

  function VarintBytes(v: nat): (r: bytes)
    ensures |r| >= 1
  {
    if v < 128 then [v] else [128 + v % 128] + VarintBytes(v / 128)
  }

  function LittleEndian(n: nat, v: nat): (r: bytes)
    ensures |r| == n
  {
    if n == 0 then [] else [v % 256] + LittleEndian(n - 1, v / 256)
  }

  function Blob(data: bytes): bytes {
    VarintBytes(|data|) + data
  }

  /** pb_encode_svarint's mapping of an int64 to a uint64. */
  function ZigZag(i: int): (z: nat) {
    if i < 0 then -2 * i - 1 else 2 * i
  }

  function UnZigZag(z: nat): int {
    if z % 2 == 1 then -1 - z / 2 else z / 2
  }

  // ---- Readers ----

  /** Base-128 little-endian digits: at most `limit` bytes, the last one below 128. */
  function Digits(s: bytes, limit: nat): Read<nat> {
    if limit == 0 || s == [] then Fail
    else if s[0] < 128 then Got(s[0], s[1..])
    else
      match Digits(s[1..], limit - 1)
      case Fail => Fail
      case Got(v, rest) => Got(s[0] - 128 + 128 * v, rest)
  }

  /** pb_decode_varint: at most ten bytes, modulo 2^64. */
  function ReadVarint(s: bytes): Read<nat> {
    match Digits(s, 10)
    case Fail => Fail
    case Got(v, rest) => Got(v % TWO64, rest)
  }

  function SignExtension(bitpos: nat): byte {
    if bitpos < 63 then 255 else 1
  }

  /** `result |= (uint32_t)(byte & 0x7F) << bitpos`, done only below bit 32. */
  function Merge(result: nat, b: byte, bitpos: nat): nat {
    if bitpos >= 32 then result else BitOr(result, ShiftLeft(b % 128, bitpos) % TWO32)
  }

  /** A byte past bit 31 that is neither zero nor part of a sign extension. */
  predicate Overflows(result: nat, b: byte, bitpos: nat) {
    bitpos >= 32 && b % 128 != 0 && (result < TWO31 || b != SignExtension(bitpos))
  }

  /** The multibyte loop of pb_decode_varint32_eof; `bitpos` is an 8-bit counter. */
  function Varint32Tail(s: bytes, bitpos: nat, result: nat): Read<nat> {
    if s == [] || Overflows(result, s[0], bitpos) then Fail
    else
      var result' := Merge(result, s[0], bitpos);
      var bitpos' := (bitpos + 7) % 256;
      if s[0] >= 128 then Varint32Tail(s[1..], bitpos', result')
      else if bitpos' == 35 && s[0] / 16 % 8 != 0 then Fail
      else Got(result', s[1..])
  }

  /** pb_decode_varint32. */
  function ReadVarint32(s: bytes): Read<nat> {
    if s == [] then Fail
    else if s[0] < 128 then Got(s[0], s[1..])
    else Varint32Tail(s[1..], 7, s[0] % 128)
  }

  function ReadBytes(s: bytes, n: nat): Read<bytes> {
    if |s| < n then Fail else Got(s[..n], s[n..])
  }

  /** A varint32 length and that many bytes: pb_make_string_substream and what closing it skips. */
  function ReadBlob(s: bytes): Read<bytes> {
    match ReadVarint32(s)
    case Fail => Fail
    case Got(n, rest) => ReadBytes(rest, n)
  }

  function LittleEndianValue(s: bytes): nat {
    if s == [] then 0 else s[0] + 256 * LittleEndianValue(s[1..])
  }

  // ---- Skipping ----

  function SkipVarint(s: bytes): Read<()> {
    if s == [] then Fail
    else if s[0] < 128 then Got((), s[1..])
    else SkipVarint(s[1..])
  }

  function SkipBytes(s: bytes, n: nat): Read<()> {
    if |s| < n then Fail else Got((), s[n..])
  }

  function SkipString(s: bytes): Read<()> {
    match ReadVarint32(s)
    case Fail => Fail
    case Got(n, rest) => SkipBytes(rest, n)
  }

  // ---- Readers make progress and stay inside the bytes that skipping passes over ----

  lemma {:induction false} DigitsFrame(s: bytes, limit: nat)
    requires Digits(s, limit).Got?
    ensures Progress(s, Digits(s, limit))
    ensures SkipVarint(s) == Got((), Digits(s, limit).rest)
  {
    if s[0] >= 128 {
      DigitsFrame(s[1..], limit - 1);
    }
  }

  lemma {:induction false} TailFrame(s: bytes, bitpos: nat, result: nat)
    requires Varint32Tail(s, bitpos, result).Got?
    ensures Progress(s, Varint32Tail(s, bitpos, result))
    ensures SkipVarint(s) == Got((), Varint32Tail(s, bitpos, result).rest)
  {
    if s[0] >= 128 {
      TailFrame(s[1..], (bitpos + 7) % 256, Merge(result, s[0], bitpos));
    }
  }

  lemma VarintFrame(s: bytes)
    ensures Progress(s, ReadVarint(s))
    ensures ReadVarint(s).Got? ==> SkipVarint(s) == Got((), ReadVarint(s).rest)
  {
    if ReadVarint(s).Got? {
      DigitsFrame(s, 10);
    }
  }

  lemma Varint32Frame(s: bytes)
    ensures Progress(s, ReadVarint32(s))
    ensures ReadVarint32(s).Got? ==> SkipVarint(s) == Got((), ReadVarint32(s).rest)
  {
    if s != [] && s[0] >= 128 && ReadVarint32(s).Got? {
      TailFrame(s[1..], 7, s[0] % 128);
    }
  }

  lemma BlobFrame(s: bytes)
    ensures Progress(s, ReadBlob(s))
    ensures Progress(s, SkipString(s))
    ensures ReadBlob(s).Got? <==> SkipString(s).Got?
    ensures ReadBlob(s).Got? ==> SkipString(s).rest == ReadBlob(s).rest && |ReadBlob(s).value| < |s|
  {
    Varint32Frame(s);
  }

  lemma {:induction false} SkipVarintProgress(s: bytes)
    ensures Progress(s, SkipVarint(s))
  {
    if s != [] && s[0] >= 128 {
      SkipVarintProgress(s[1..]);
    }
  }

  // ---- Once a varint is complete, the bytes after it do not matter ----

  lemma {:induction false} DigitsExtend(s: bytes, limit: nat, t: bytes)
    requires SkipVarint(s).Got?
    ensures Digits(s + t, limit) == Extend(Digits(s, limit), t)
  {
    if limit > 0 {
      assert (s + t)[1..] == s[1..] + t;
      if s[0] >= 128 {
        DigitsExtend(s[1..], limit - 1, t);
      }
    }
  }

  lemma {:induction false} TailExtend(s: bytes, bitpos: nat, result: nat, t: bytes)
    requires SkipVarint(s).Got?
    ensures Varint32Tail(s + t, bitpos, result) == Extend(Varint32Tail(s, bitpos, result), t)
  {
    assert (s + t)[1..] == s[1..] + t;
    if s[0] >= 128 {
      TailExtend(s[1..], (bitpos + 7) % 256, Merge(result, s[0], bitpos), t);
    }
  }

  lemma {:induction false} SkipVarintExtend(s: bytes, t: bytes)
    requires SkipVarint(s).Got?
    ensures SkipVarint(s + t) == Extend(SkipVarint(s), t)
  {
    assert (s + t)[1..] == s[1..] + t;
    if s[0] >= 128 {
      SkipVarintExtend(s[1..], t);
    }
  }

  lemma VarintExtend(s: bytes, t: bytes)
    requires SkipVarint(s).Got?
    ensures ReadVarint(s + t) == Extend(ReadVarint(s), t)
    ensures ReadVarint32(s + t) == Extend(ReadVarint32(s), t)
  {
    DigitsExtend(s, 10, t);
    assert (s + t)[1..] == s[1..] + t;
    if s[0] >= 128 {
      TailExtend(s[1..], 7, s[0] % 128, t);
    }
  }

  lemma BlobExtend(s: bytes, t: bytes)
    requires SkipString(s).Got?
    ensures ReadBlob(s + t) == Extend(ReadBlob(s), t)
    ensures SkipString(s + t) == Extend(SkipString(s), t)
  {
    Varint32Frame(s);
    VarintExtend(s, t);
    var n, rest := ReadVarint32(s).value, ReadVarint32(s).rest;
    assert (rest + t)[..n] == rest[..n];
    assert (rest + t)[n..] == rest[n..] + t;
  }

  lemma BytesExtend(s: bytes, n: nat, t: bytes)
    requires SkipBytes(s, n).Got?
    ensures ReadBytes(s + t, n) == Extend(ReadBytes(s, n), t)
    ensures SkipBytes(s + t, n) == Extend(SkipBytes(s, n), t)
  {
    assert (s + t)[..n] == s[..n];
    assert (s + t)[n..] == s[n..] + t;
  }

  // ---- Reading back what was written ----

  /** 128^k, the value limit of k base-128 digits. */
  function Pow128(k: nat): (p: nat)
    ensures p >= 1
  {
    if k == 0 then 1 else 128 * Pow128(k - 1)
  }

  lemma {:induction false} VarintBytesDigits(v: nat, k: nat, t: bytes)
    requires v < Pow128(k)
    ensures |VarintBytes(v)| <= k || v == 0
    ensures k > 0 ==> Digits(VarintBytes(v) + t, k) == Got(v, t)
  {
    if v >= 128 {
      assert k > 0;
      assert v / 128 < Pow128(k - 1);
      VarintBytesDigits(v / 128, k - 1, t);
      var b := VarintBytes(v);
      assert (b + t)[1..] == VarintBytes(v / 128) + t;
    }
  }

  /** Ten groups of seven bits are enough for a uint64. */
  lemma TenGroups(k: nat)
    requires k == 10
    ensures Pow128(k) >= TWO64
  {
    assert Pow128(10) >= TWO64;
  }

  lemma SmallMod(v: nat, m: nat)
    requires v < m
    ensures v % m == v
  {
  }

  /** What the digits hold is what the reader returns, if it is a uint64. */
  lemma DigitsRead(s: bytes, k: nat, v: nat, t: bytes)
    requires k == 10 && Digits(s, k) == Got(v, t) && v < TWO64
    ensures ReadVarint(s) == Got(v, t)
  {
    SmallMod(v, TWO64);
  }

  /** Every uint64 takes at most ten bytes and reads back as itself. */
  lemma VarintRoundTrip(v: nat, t: bytes)
    requires v < TWO64
    ensures |VarintBytes(v)| <= 10
    ensures ReadVarint(VarintBytes(v) + t) == Got(v, t)
  {
    var k := 10;
    TenGroups(k);
    VarintBytesDigits(v, k, t);
    DigitsRead(VarintBytes(v) + t, k, v, t);
  }

  lemma ZigZagRoundTrip(i: int)
    requires -0x8000_0000_0000_0000 <= i < 0x8000_0000_0000_0000
    ensures ZigZag(i) < TWO64
    ensures UnZigZag(ZigZag(i)) == i
  {
  }

  lemma {:induction false} LittleEndianRoundTrip(n: nat, v: nat)
    requires v < Pow2(8 * n)
    ensures LittleEndianValue(LittleEndian(n, v)) == v
  {
    if n > 0 {
      PowAdd(8, 8 * (n - 1));
      assert Pow2(8) == 256;
      LittleEndianRoundTrip(n - 1, v / 256);
      assert LittleEndian(n, v)[1..] == LittleEndian(n - 1, v / 256);
    }
  }
}
