/**
 The 32-bit varint reader against the 64-bit one: what it accepts and when the two agree.
 The reader ORs shifted groups of bits; here that is compared with the value of the digits.
 */
module Varint32 {
  import opened Basics
  import opened Bits
  import opened Wire

  predicate LowPosition(bitpos: nat) {
    bitpos == 7 || bitpos == 14 || bitpos == 21 || bitpos == 28
  }

  predicate HighPosition(bitpos: nat) {
    bitpos == 35 || bitpos == 42 || bitpos == 49 || bitpos == 56 || bitpos == 63
  }

  /** Multiplying by a small power of two. */
  lemma ShiftLeftConst(b: nat, k: nat)
    requires k == 7 || k == 28
    ensures ShiftLeft(b, k) == (if k == 7 then 0x80 else 0x1000_0000) * b
  {
    ShiftLeftSeven(b, 0);
    if k == 28 {
      ShiftLeftSeven(b, k - 21);
      ShiftLeftSeven(b, k - 14);
      ShiftLeftSeven(b, k - 7);
    }
  }

  /** The bits of a group of seven that survive at this position of a 32-bit word. */
  function Kept(b: nat, bitpos: nat): nat {
    if bitpos < 28 then b else b % 16
  }

  lemma GroupBound(b: nat, bitpos: nat)
    requires b < 128
    ensures ShiftLeft(b, bitpos) + Pow2(bitpos) <= Pow2(bitpos + 7)
  {
    ShiftLeftBelow(b, 128, bitpos);
    ShiftLeftSeven(1, bitpos);
    ShiftOne(bitpos);
  }

  /** The powers of two at the group boundaries */
  lemma {:induction false} GroupPower(k: nat)
    requires k <= 5
    ensures Pow2(7 * k) == if k == 0 then 1 else if k == 1 then 0x80 else if k == 2 then 0x4000
                           else if k == 3 then 0x20_0000 else if k == 4 then 0x1000_0000 else 0x8_0000_0000
  {
    if k > 0 {
      GroupPower(k - 1);
      ShiftLeftSeven(0, 7 * (k - 1));
    }
  }

  lemma LowPower(bitpos: nat)
    requires LowPosition(bitpos)
    ensures Pow2(bitpos) <= 0x1000_0000
    ensures bitpos < 28 ==> Pow2(bitpos + 7) <= 0x1000_0000
    ensures bitpos == 7 ==> Pow2(bitpos) == 0x80
    ensures bitpos == 28 ==> Pow2(bitpos + 7) == 0x8_0000_0000
  {
    var k := bitpos / 7;
    GroupPower(k);
    GroupPower(k + 1);
  }

  lemma TopNibble(b: nat)
    requires b < 128
    ensures 0x1000_0000 * b % TWO32 == 0x1000_0000 * (b % 16)
  {
    assert b == 16 * (b / 16) + b % 16;
  }

  /** At bit 28 only four bits of the group survive. */
  lemma KeptTop(b: nat, bitpos: nat)
    requires bitpos == 28 && b < 128
    ensures ShiftLeft(b, bitpos) % TWO32 == ShiftLeft(b % 16, bitpos)
    ensures ShiftLeft(b % 16, bitpos) + 0x1000_0000 <= TWO32
  {
    ShiftLeftConst(b, bitpos);
    ShiftLeftConst(b % 16, bitpos);
    TopNibble(b);
  }

  lemma KeptBits(b: nat, bitpos: nat)
    requires LowPosition(bitpos) && b < 128
    ensures ShiftLeft(b, bitpos) % TWO32 == ShiftLeft(Kept(b, bitpos), bitpos)
    ensures ShiftLeft(Kept(b, bitpos), bitpos) + Pow2(bitpos) <= TWO32
  {
    LowPower(bitpos);
    if bitpos < 28 {
      GroupBound(b, bitpos);
    } else {
      KeptTop(b, bitpos);
    }
  }

  /** One step of the multibyte loop below bit 32 adds the next seven bits, modulo 2^32. */
  lemma OrStep(result: nat, b: nat, bitpos: nat)
    requires LowPosition(bitpos) && result < Pow2(bitpos) && b < 128
    ensures BitOr(result, ShiftLeft(b, bitpos) % TWO32) == result + ShiftLeft(Kept(b, bitpos), bitpos)
    ensures result + ShiftLeft(Kept(b, bitpos), bitpos) < Pow2(bitpos + 7)
    ensures result + ShiftLeft(Kept(b, bitpos), bitpos) < TWO32
  {
    GroupBound(Kept(b, bitpos), bitpos);
    KeptBits(b, bitpos);
    OrDisjoint(result, Kept(b, bitpos), bitpos);
  }

  /** Splitting off the low seven bits before a shift. */
  lemma SplitShift(w: nat, k: nat)
    ensures ShiftLeft(w, k) == ShiftLeft(w % 128, k) + ShiftLeft(w / 128, k + 7)
  {
    ShiftLeftAdd(w % 128, 128 * (w / 128), k);
    ShiftLeftSeven(w / 128, k);
  }

  /** The value accumulated after the group of seven bits at this position. */
  function Accumulate(result: nat, b: nat, bitpos: nat): nat {
    result + ShiftLeft(Kept(b, bitpos), bitpos)
  }

  lemma MergeStep(b: byte, bitpos: nat, result: nat) returns (acc: nat)
    requires LowPosition(bitpos) && result < Pow2(bitpos)
    ensures acc == Accumulate(result, b % 128, bitpos) == Merge(result, b, bitpos)
    ensures acc < Pow2(bitpos + 7) && acc < TWO32
  {
    OrStep(result, b % 128, bitpos);
    acc := Accumulate(result, b % 128, bitpos);
  }

  /** A byte below bit 32 is no overflow, and the counter does not wrap. */
  lemma NoOverflow(result: nat, b: byte, bitpos: nat)
    requires LowPosition(bitpos)
    ensures !Overflows(result, b, bitpos) && (bitpos + 7) % 256 == bitpos + 7
    ensures bitpos + 7 == 35 <==> bitpos == 28
  {
  }

  /** One byte of the loop below bit 32. */
  lemma TailStep(s: bytes, bitpos: nat, result: nat) returns (acc: nat)
    requires s != [] && LowPosition(bitpos) && result < Pow2(bitpos)
    ensures acc == Accumulate(result, s[0] % 128, bitpos)
    ensures acc < Pow2(bitpos + 7) && acc < TWO32
    ensures s[0] >= 128 ==> Varint32Tail(s, bitpos, result) == Varint32Tail(s[1..], bitpos + 7, acc)
    ensures s[0] < 128 ==>
              Varint32Tail(s, bitpos, result) == if bitpos == 28 && s[0] >= 16 then Fail else Got(acc, s[1..])
  {
    acc := MergeStep(s[0], bitpos, result);
    NoOverflow(result, s[0], bitpos);
    HighBits(s[0]);
  }

  lemma HighBits(b: byte)
    ensures b < 128 ==> b / 16 % 8 == b / 16
  {
  }

  /** Without truncation, accumulating the low group leaves the rest of w for the next position. */
  lemma AccumulateSplit(w: nat, bitpos: nat, result: nat)
    requires LowPosition(bitpos)
    requires bitpos < 28 || ShiftLeft(w, bitpos) < TWO32
    ensures Accumulate(result, w % 128, bitpos) + ShiftLeft(w / 128, bitpos + 7) == result + ShiftLeft(w, bitpos)
    ensures bitpos == 28 ==> w < 16
  {
    SplitShift(w, bitpos);
    if bitpos == 28 {
      ShiftLeftConst(w, bitpos);
    }
  }

  /** One byte of Digits, split into its value modulo 128 and the rest. */
  lemma DigitsStep(s: bytes, limit: nat)
    requires Digits(s, limit).Got?
    ensures s != [] && limit > 0 && Digits(s, limit).value % 128 == s[0] % 128
    ensures s[0] >= 128 ==> Digits(s[1..], limit - 1).Got?
                            && Digits(s, limit).value / 128 == Digits(s[1..], limit - 1).value
    ensures s[0] < 128 ==> Digits(s, limit).value / 128 == 0
  {
  }

  /** Past bit 31, bytes without value bits are accepted as padding. */
  lemma {:induction false} PaddingTail(s: bytes, bitpos: nat, result: nat, limit: nat)
    requires 35 <= bitpos && bitpos + 7 * limit <= 70
    requires Digits(s, limit).Got? && Digits(s, limit).value == 0
    ensures Varint32Tail(s, bitpos, result) == Got(result, Digits(s, limit).rest)
    decreases limit
  {
    if s[0] >= 128 {
      PaddingTail(s[1..], bitpos + 7, result, limit - 1);
    }
  }

  /** The multibyte loop at bit 28, where at most four bits are left. */
  lemma SmallLast(s: bytes, bitpos: nat, result: nat, limit: nat, w: nat)
    requires bitpos == 28 && result < Pow2(bitpos) && limit == 6
    requires Digits(s, limit).Got? && w == Digits(s, limit).value && ShiftLeft(w, bitpos) < TWO32
    ensures Varint32Tail(s, bitpos, result) == Got(result + ShiftLeft(w, bitpos), Digits(s, limit).rest)
  {
    DigitsStep(s, limit);
    var acc := TailStep(s, bitpos, result);
    AccumulateSplit(w, bitpos, result);
    ShiftLeftZero(bitpos + 7);
    SmallHigh(w);
    assert acc == result + ShiftLeft(w, bitpos);
    if s[0] >= 128 {
      PaddingTail(s[1..], bitpos + 7, acc, limit - 1);
    } else {
      SmallMod(s[0], 128);
      assert s[0] == w && Digits(s, limit) == Got(s[0], s[1..]);
    }
  }

  lemma SmallHigh(w: nat)
    requires w < 16
    ensures w / 128 == 0 && w % 128 == w
  {
  }

  /** The multibyte loop on digits w, where w << bitpos still fits in 32 bits. */
  lemma {:induction false} SmallTail(s: bytes, bitpos: nat, result: nat, limit: nat, w: nat)
    requires LowPosition(bitpos) && result < Pow2(bitpos) && bitpos + 7 * limit == 70
    requires Digits(s, limit).Got? && w == Digits(s, limit).value && ShiftLeft(w, bitpos) < TWO32
    ensures Varint32Tail(s, bitpos, result) == Got(result + ShiftLeft(w, bitpos), Digits(s, limit).rest)
    decreases limit
  {
    if bitpos == 28 {
      SmallLast(s, bitpos, result, limit, w);
    } else {
      DigitsStep(s, limit);
      var acc := TailStep(s, bitpos, result);
      AccumulateSplit(w, bitpos, result);
      ShiftLeftZero(bitpos + 7);
      assert acc + ShiftLeft(w / 128, bitpos + 7) == result + ShiftLeft(w, bitpos);
      if s[0] >= 128 {
        SmallTail(s[1..], bitpos + 7, acc, limit - 1, w / 128);
        assert Digits(s, limit).rest == Digits(s[1..], limit - 1).rest;
      } else {
        assert w / 128 == 0 && Digits(s, limit).rest == s[1..];
      }
    }
  }

  /** The first byte of a multibyte varint, read by either reader. */
  lemma FirstStep(s: bytes, limit: nat)
    requires Digits(s, limit).Got? && limit == 10 && s[0] >= 128
    ensures s[0] % 128 < Pow2(7)
    ensures Digits(s[1..], 9).Got? && Digits(s[1..], 9).rest == Digits(s, limit).rest
    ensures Digits(s, limit).value == s[0] % 128 + ShiftLeft(Digits(s[1..], 9).value, 7)
  {
    var rest := limit - 1;
    ShiftLeftConst(Digits(s[1..], rest).value, 7);
    LowPower(7);
    assert Pow2(7) == 128;
  }

  /** Every varint of at most ten bytes with a value below 2^32 is accepted, padded or not. */
  lemma AcceptsSmall(s: bytes)
    requires Digits(s, 10).Got? && Digits(s, 10).value < TWO32
    ensures ReadVarint32(s) == Digits(s, 10)
  {
    if s[0] >= 128 {
      FirstStep(s, 10);
      SmallTail(s[1..], 7, s[0] % 128, 9, Digits(s[1..], 9).value);
    }
  }

  /** Every canonical encoding of a value below 2^32 is accepted. */
  lemma AcceptsCanonical(v: nat, t: bytes)
    requires v < TWO32
    ensures ReadVarint32(VarintBytes(v) + t) == Got(v, t)
  {
    var k := 10;
    TenGroups(k);
    VarintBytesDigits(v, k, t);
    AcceptsSmall(VarintBytes(v) + t);
  }

  /** The digits above a position when bits 31 to 63 are all ones. */
  function OnesFrom(bitpos: nat): (w: nat)
    requires HighPosition(bitpos)
  {
    if bitpos == 63 then 1
    else if bitpos == 56 then 0xFF
    else if bitpos == 49 then 0x7FFF
    else if bitpos == 42 then 0x3F_FFFF
    else 0x1FFF_FFFF
  }

  /** From bit 35 on, a run of ones ending at bit 63 is the sign extension of a set bit 31. */
  lemma {:induction false} SignTail(s: bytes, bitpos: nat, result: nat, limit: nat)
    requires HighPosition(bitpos) && TWO31 <= result && bitpos + 7 * limit == 70
    requires Digits(s, limit).Got? && Digits(s, limit).value == OnesFrom(bitpos)
    ensures Varint32Tail(s, bitpos, result) == Got(result, Digits(s, limit).rest)
    decreases limit
  {
    DigitsStep(s, limit);
    if bitpos < 63 {
      SignTail(s[1..], bitpos + 7, result, limit - 1);
    }
  }

  /** At bit 28, a value in the top 2^31 of the uint64 range leaves only ones above bit 35. */
  lemma NegativeTop(w: nat, bitpos: nat, result: nat)
    requires bitpos == 28 && result < 0x1000_0000
    requires TWO64 - TWO31 <= result + ShiftLeft(w, bitpos) < TWO64
    ensures w / 128 == OnesFrom(35)
    ensures Accumulate(result, w % 128, bitpos) == result + ShiftLeft(w, bitpos) - (TWO64 - TWO32)
    ensures Accumulate(result, w % 128, bitpos) >= TWO31
  {
    ShiftLeftConst(w, bitpos);
    ShiftLeftConst(w % 128 % 16, bitpos);
    Nibbles(w);
  }

  lemma Nibbles(w: nat)
    ensures w % 128 % 16 == w % 16
  {
    assert w == 128 * (w / 128) + w % 128;
  }

  lemma SmallShift(w: nat, bitpos: nat)
    requires LowPosition(bitpos) && w < 128
    ensures ShiftLeft(w, bitpos) + Pow2(bitpos) <= 0x8_0000_0000
  {
    GroupBound(w, bitpos);
    LowPower(bitpos);
  }

  lemma NegativeContinues(s: bytes, bitpos: nat, result: nat, limit: nat, w: nat)
    requires LowPosition(bitpos) && result < Pow2(bitpos) && Digits(s, limit).Got? && w == Digits(s, limit).value
    requires TWO64 - TWO31 <= result + ShiftLeft(w, bitpos)
    ensures s[0] >= 128
  {
    DigitsStep(s, limit);
    if s[0] < 128 {
      SmallShift(w, bitpos);
      assert false;
    }
  }

  lemma NegativeLast(s: bytes, bitpos: nat, result: nat, limit: nat, w: nat)
    requires bitpos == 28 && result < Pow2(bitpos) && limit == 6
    requires Digits(s, limit).Got? && w == Digits(s, limit).value && s[0] >= 128
    requires TWO64 - TWO31 <= result + ShiftLeft(w, bitpos) < TWO64
    ensures Varint32Tail(s, bitpos, result)
         == Got(result + ShiftLeft(w, bitpos) - (TWO64 - TWO32), Digits(s, limit).rest)
  {
    DigitsStep(s, limit);
    LowPower(bitpos);
    NegativeTop(w, bitpos, result);
    var acc := TailStep(s, bitpos, result);
    SignTail(s[1..], bitpos + 7, acc, limit - 1);
  }

  lemma {:induction false} NegativeTail(s: bytes, bitpos: nat, result: nat, limit: nat, w: nat)
    requires LowPosition(bitpos) && result < Pow2(bitpos) && bitpos + 7 * limit == 70
    requires Digits(s, limit).Got? && w == Digits(s, limit).value
    requires TWO64 - TWO31 <= result + ShiftLeft(w, bitpos) < TWO64
    ensures Varint32Tail(s, bitpos, result)
         == Got(result + ShiftLeft(w, bitpos) - (TWO64 - TWO32), Digits(s, limit).rest)
    decreases limit
  {
    NegativeContinues(s, bitpos, result, limit, w);
    if bitpos == 28 {
      NegativeLast(s, bitpos, result, limit, w);
    } else {
      DigitsStep(s, limit);
      var acc := TailStep(s, bitpos, result);
      AccumulateSplit(w, bitpos, result);
      NegativeTail(s[1..], bitpos + 7, acc, limit - 1, w / 128);
    }
  }

  /** Every int32 sign-extended to 64 bits is accepted, as its value modulo 2^32. */
  lemma AcceptsSignExtended(i: int, t: bytes)
    requires -0x8000_0000 <= i < 0
    ensures ReadVarint32(VarintBytes(i + TWO64) + t) == Got(i + TWO32, t)
  {
    var v := i + TWO64;
    var s := VarintBytes(v) + t;
    var k := 10;
    TenGroups(k);
    VarintBytesDigits(v, k, t);
    FirstStep(s, 10);
    NegativeTail(s[1..], 7, s[0] % 128, 9, Digits(s[1..], 9).value);
  }

  /** Past bit 31 the reader only checks bytes; the result no longer changes. */
  lemma {:induction false} HighTail(s: bytes, bitpos: nat, result: nat, limit: nat)
    requires 35 <= bitpos && bitpos + 7 * limit <= 70 && Digits(s, limit).Got?
    requires Varint32Tail(s, bitpos, result).Got?
    ensures Varint32Tail(s, bitpos, result).value == result
    decreases limit
  {
    if s[0] >= 128 {
      HighTail(s[1..], bitpos + 7, result, limit - 1);
    }
  }

  /** Truncation at bit 28 is reduction modulo 2^32. */
  lemma AccumulateMod(w: nat, bitpos: nat, result: nat)
    requires bitpos == 28 && Accumulate(result, w % 128, bitpos) < TWO32
    ensures Accumulate(result, w % 128, bitpos) == (result + ShiftLeft(w, bitpos)) % TWO32
  {
    ShiftLeftConst(w, bitpos);
    ShiftLeftConst(w % 128 % 16, bitpos);
    Nibbles(w);
    Remainder(result + ShiftLeft(w, bitpos), w / 16, Accumulate(result, w % 128, bitpos));
  }

  lemma Remainder(x: nat, q: nat, r: nat)
    requires x == TWO32 * q + r && r < TWO32
    ensures x % TWO32 == r
  {
  }

  /** The byte at bit 28, where truncation happens. */
  lemma TopAgrees(s: bytes, bitpos: nat, result: nat, limit: nat, w: nat)
    requires bitpos == 28 && result < Pow2(bitpos) && limit == 6
    requires Digits(s, limit).Got? && Varint32Tail(s, bitpos, result).Got?
    requires w == Digits(s, limit).value
    ensures Varint32Tail(s, bitpos, result).value == (result + ShiftLeft(w, bitpos)) % TWO32
  {
    DigitsStep(s, limit);
    var acc := TailStep(s, bitpos, result);
    AccumulateMod(w, bitpos, result);
    if s[0] >= 128 {
      HighTail(s[1..], bitpos + 7, acc, limit - 1);
    }
  }

  lemma LastAgrees(s: bytes, bitpos: nat, result: nat, limit: nat, w: nat)
    requires LowPosition(bitpos) && bitpos < 28 && result < Pow2(bitpos)
    requires Digits(s, limit).Got? && s[0] < 128 && w == Digits(s, limit).value
    ensures Varint32Tail(s, bitpos, result).Got?
    ensures Varint32Tail(s, bitpos, result).value == (result + ShiftLeft(w, bitpos)) % TWO32
  {
    DigitsStep(s, limit);
    var acc := TailStep(s, bitpos, result);
    AccumulateSplit(w, bitpos, result);
    ShiftLeftZero(bitpos + 7);
    Remainder(result + ShiftLeft(w, bitpos), 0, acc);
  }

  lemma {:induction false} TailsAgree(s: bytes, bitpos: nat, result: nat, limit: nat, w: nat)
    requires LowPosition(bitpos) && result < Pow2(bitpos) && bitpos + 7 * limit == 70
    requires Digits(s, limit).Got? && Varint32Tail(s, bitpos, result).Got?
    requires w == Digits(s, limit).value
    ensures Varint32Tail(s, bitpos, result).value == (result + ShiftLeft(w, bitpos)) % TWO32
    decreases limit
  {
    DigitsStep(s, limit);
    if bitpos == 28 {
      TopAgrees(s, bitpos, result, limit, w);
    } else if s[0] < 128 {
      LastAgrees(s, bitpos, result, limit, w);
    } else {
      var acc := TailStep(s, bitpos, result);
      AccumulateSplit(w, bitpos, result);
      TailsAgree(s[1..], bitpos + 7, acc, limit - 1, w / 128);
    }
  }

  /** Whenever both readers accept, they consume the same bytes and agree modulo 2^32. */
  lemma ReadersAgree(s: bytes)
    requires ReadVarint(s).Got? && ReadVarint32(s).Got?
    ensures ReadVarint32(s).rest == ReadVarint(s).rest
    ensures ReadVarint32(s).value == ReadVarint(s).value % TWO32
  {
    VarintFrame(s);
    Varint32Frame(s);
    var w := Digits(s, 10).value;
    if s[0] >= 128 {
      FirstStep(s, 10);
      TailsAgree(s[1..], 7, s[0] % 128, 9, Digits(s[1..], 9).value);
    }
    ModMod(w);
  }

  lemma ModMod(w: nat)
    ensures w % TWO64 % TWO32 == w % TWO32
  {
    var q := w / TWO64;
    assert w == TWO32 * (TWO32 * q) + w % TWO64;
    Remainder(w, TWO32 * q + w % TWO64 / TWO32, w % TWO64 % TWO32);
  }
}
