/**
 The overflow check of the 32-bit varint reader, exactly: which uint64 encodings it accepts. Besides values below 2^32
 and sign-extended negative ones it takes some that are neither.
 */
module Overflow {
  import opened Basics
  import opened Bits
  import opened Wire
  import opened Varint32

  /** Bit 63 is set, and each group of seven bits from here up to bit 62 is all zeros or all ones. */
  predicate SignLike(u: nat, bitpos: nat)
    requires HighPosition(bitpos)
    decreases 63 - bitpos
  {
    if bitpos == 63 then u == 1
    else (u % 128 == 0 || u % 128 == 127) && SignLike(u / 128, bitpos + 7)
  }

  lemma {:induction false} ZeroIsNotSignLike(u: nat, bitpos: nat)
    requires HighPosition(bitpos) && u == 0
    ensures !SignLike(u, bitpos)
    decreases 63 - bitpos
  {
    if bitpos < 63 {
      ZeroIsNotSignLike(u / 128, bitpos + 7);
    }
  }

  lemma HeadAndTail(b: byte, rest: bytes, t: bytes)
    ensures [b] + rest + t != [] && ([b] + rest + t)[0] == b && ([b] + rest + t)[1..] == rest + t
  {
  }

  /** The first byte of a canonical varint, and what follows */
  lemma FirstGroup(u: nat, t: bytes)
    ensures VarintBytes(u) + t != []
    ensures u < 128 ==> (VarintBytes(u) + t)[0] == u && (VarintBytes(u) + t)[1..] == t
    ensures u >= 128 ==> (VarintBytes(u) + t)[0] == 128 + u % 128
                         && (VarintBytes(u) + t)[1..] == VarintBytes(u / 128) + t
  {
    if u >= 128 {
      HeadAndTail(128 + u % 128, VarintBytes(u / 128), t);
    }
  }

  /** Past bit 31, a canonical varint is taken exactly when it looks like a sign extension of a set bit 31. */
  lemma {:induction false} HighCanonical(u: nat, bitpos: nat, result: nat, t: bytes)
    requires HighPosition(bitpos) && 0 < u <= OnesFrom(bitpos)
    ensures Varint32Tail(VarintBytes(u) + t, bitpos, result)
         == if TWO31 <= result && SignLike(u, bitpos) then Got(result, t) else Fail
    decreases 63 - bitpos
  {
    FirstGroup(u, t);
    if u < 128 {
      if bitpos < 63 {
        ZeroIsNotSignLike(u / 128, bitpos + 7);
      }
    } else {
      HighCanonical(u / 128, bitpos + 7, result, t);
      Group(u % 128, bitpos, result);
    }
  }

  /** A continued byte is no overflow when its group is empty, or full under a set bit 31. */
  lemma Group(b: nat, bitpos: nat, result: nat)
    requires HighPosition(bitpos) && bitpos < 63 && b < 128
    ensures Overflows(result, 128 + b, bitpos) <==> b != 0 && (result < TWO31 || b != 127)
    ensures Merge(result, 128 + b, bitpos) == result && (bitpos + 7) % 256 == bitpos + 7
  {
  }

  /** What the reader makes of a value of 2^32 or more with these 32 low bits and these bits from bit 35 on */
  function Taken(low: nat, u: nat, bitpos: nat, t: bytes): Read<nat>
    requires HighPosition(bitpos)
  {
    if low >= TWO31 && SignLike(u, bitpos) then Got(low, t) else Fail
  }

  /** v has these 32 low bits and these bits from bit 35 on; bits 32 to 34 are in between. */
  predicate Splits(v: nat, low: nat, middle: nat, u: nat) {
    v == 0x8_0000_0000 * u + TWO32 * middle + low && middle < 8 && low < TWO32
  }

  /** The group at bit 28 gives four bits to the low half, three to the middle, and what follows is above. */
  lemma TopSplits(v: nat, low: nat, middle: nat, u: nat, w: nat, result: nat)
    requires Splits(v, low, middle, u) && v == result + 0x1000_0000 * w && result < 0x1000_0000
    ensures w / 128 == u && result + 0x1000_0000 * (w % 16) == low
  {
    assert w == 128 * (w / 128) + 16 * (w / 16 % 8) + w % 16;
  }

  /** The byte at bit 28 keeps four bits of its group. */
  lemma LastGroup(w: nat, b: nat, bitpos: nat, result: nat)
    requires bitpos == 28 && (b == w || b == 128 + w % 128)
    ensures Accumulate(result, b % 128, bitpos) == result + 0x1000_0000 * (w % 16)
  {
    SameGroup(w);
    Nibbles(w);
    ShiftLeftConst(w % 16, bitpos);
  }

  lemma LastStep(s: bytes, bitpos: nat, result: nat)
    requires s != [] && bitpos == 28 && result < Pow2(bitpos)
    ensures s[0] >= 128 ==>
              Varint32Tail(s, bitpos, result)
              == Varint32Tail(s[1..], bitpos + 7, Accumulate(result, s[0] % 128, bitpos))
    ensures 16 <= s[0] < 128 ==> Varint32Tail(s, bitpos, result).Fail?
  {
    var acc := TailStep(s, bitpos, result);
  }

  lemma LargeLast(w: nat, bitpos: nat, high: nat, result: nat, low: nat, u: nat, s: bytes, t: bytes)
    requires bitpos == 28 && high == 35 && result < Pow2(bitpos) && w >= 16
    requires s == VarintBytes(w) + t && low == Accumulate(result, s[0] % 128, bitpos) && u == w / 128 <= OnesFrom(high)
    ensures Varint32Tail(s, bitpos, result) == Taken(low, u, high, t)
  {
    FirstGroup(w, t);
    LastStep(s, bitpos, result);
    if w < 128 {
      ZeroIsNotSignLike(u, high);
    } else {
      HighCanonical(u, high, low, t);
    }
  }

  lemma AtTop(w: nat, bitpos: nat, high: nat, result: nat, v: nat, low: nat, middle: nat, u: nat, t: bytes)
    requires bitpos == 28 && high == 35 && result < Pow2(bitpos)
    requires v == result + ShiftLeft(w, bitpos) && TWO32 <= v < TWO64 && Splits(v, low, middle, u)
    ensures Varint32Tail(VarintBytes(w) + t, bitpos, result) == Taken(low, u, high, t)
  {
    LowPower(bitpos);
    ShiftLeftConst(w, bitpos);
    TopSplits(v, low, middle, u, w, result);
    FirstGroup(w, t);
    LastGroup(w, (VarintBytes(w) + t)[0], bitpos, result);
    LargeLast(w, bitpos, high, result, low, u, VarintBytes(w) + t, t);
  }

  /** Below bit 28, a value of 2^32 or more continues. */
  lemma Continues(w: nat, bitpos: nat, result: nat)
    requires LowPosition(bitpos) && bitpos < 28 && result < Pow2(bitpos) && TWO32 <= result + ShiftLeft(w, bitpos)
    ensures w >= 128
  {
    LowPower(bitpos);
    if w < 128 {
      GroupBound(w, bitpos);
    }
  }

  lemma {:induction false} LargeTail(w: nat, bitpos: nat, high: nat, result: nat, v: nat, low: nat, middle: nat,
                                     u: nat, t: bytes)
    requires LowPosition(bitpos) && high == 35 && result < Pow2(bitpos)
    requires v == result + ShiftLeft(w, bitpos) && TWO32 <= v < TWO64 && Splits(v, low, middle, u)
    ensures Varint32Tail(VarintBytes(w) + t, bitpos, result) == Taken(low, u, high, t)
    decreases 28 - bitpos
  {
    if bitpos == 28 {
      AtTop(w, bitpos, high, result, v, low, middle, u, t);
    } else {
      FirstGroup(w, t);
      Continues(w, bitpos, result);
      var acc := TailStep(VarintBytes(w) + t, bitpos, result);
      AccumulateSplit(w, bitpos, result);
      SameGroup(w);
      LargeTail(w / 128, bitpos + 7, high, acc, v, low, middle, u, t);
    }
  }

  lemma SameGroup(w: nat)
    ensures (128 + w % 128) % 128 == w % 128
  {
  }

  lemma LargeFirst(v: nat, high: nat, low: nat, middle: nat, u: nat, t: bytes)
    requires high == 35 && TWO32 <= v < TWO64 && Splits(v, low, middle, u)
    ensures ReadVarint32(VarintBytes(v) + t) == Taken(low, u, high, t)
  {
    var bitpos := 7;
    FirstGroup(v, t);
    SameGroup(v);
    ShiftLeftConst(v / 128, bitpos);
    LowPower(bitpos);
    LargeTail(v / 128, bitpos, high, v % 128, v, low, middle, u, t);
  }

  /**
   Every uint64 in its canonical encoding: values below 2^32 are taken; of the others exactly those with bits 31 and 63
   set whose groups of seven bits from bit 35 to bit 62 are each all zeros or all ones, whatever bits 32 to 34 are.
   */
  lemma CanonicalAcceptance(v: nat, t: bytes)
    requires v < TWO64
    ensures ReadVarint32(VarintBytes(v) + t)
         == if v < TWO32 then Got(v, t)
            else if v % TWO32 >= TWO31 && SignLike(v / 0x8_0000_0000, 35) then Got(v % TWO32, t)
            else Fail
  {
    if v < TWO32 {
      AcceptsCanonical(v, t);
    } else {
      var high := 35;
      var low, u := v % TWO32, v / 0x8_0000_0000;
      var middle := (v - 0x8_0000_0000 * u) / TWO32;
      LowHalf(v, low, middle, u);
      LargeFirst(v, high, low, middle, u, t);
    }
  }

  lemma LowHalf(v: nat, low: nat, middle: nat, u: nat)
    requires low == v % TWO32 && u == v / 0x8_0000_0000 && middle == (v - 0x8_0000_0000 * u) / TWO32
    ensures Splits(v, low, middle, u)
  {
    var r := v - 0x8_0000_0000 * u;
    assert v == TWO32 * (8 * u + r / TWO32) + r % TWO32;
    Remainder(v, 8 * u + r / TWO32, r % TWO32);
  }

  /** A value that is no sign extension of its lower half and passes the check: bits 31 and 63 set, all others clear. */
  lemma AcceptsTornSign(v: nat, t: bytes)
    requires v == 0x8000_0000_8000_0000
    ensures ReadVarint32(VarintBytes(v) + t) == Got(0x8000_0000, t)
  {
    CanonicalAcceptance(v, t);
    var u := v / 0x8_0000_0000;
    assert u == 0x1000_0000;
    assert u / 128 == 0x20_0000 && u / 128 / 128 == 0x4000 && u / 128 / 128 / 128 == 0x80;
    assert u / 128 / 128 / 128 / 128 == 1;
    assert SignLike(0x80, 56) && SignLike(0x4000, 49) && SignLike(0x20_0000, 42) && SignLike(u, 35);
  }
}
