/** Powers of two and bitwise operations on unsigned machine words, kept on natural numbers. */
module Bits {

  const TWO31 := 0x8000_0000
  const TWO32 := 0x1_0000_0000
  const TWO64 := 0x1_0000_0000_0000_0000

  function Pow2(n: nat): (p: nat)
    ensures p >= 1
  {
    if n == 0 then 1 else 2 * Pow2(n - 1)
  }

  /** The C operator `<<` before truncation to the word size. */
  function ShiftLeft(b: nat, k: nat): nat {
    if k == 0 then b else 2 * ShiftLeft(b, k - 1)
  }

  /** The C operator `>>` on unsigned words. */
  function ShiftRight(w: nat, k: nat): nat {
    if k == 0 then w else ShiftRight(w / 2, k - 1)
  }

  /** The C operator `|` on unsigned words. */
  function BitOr(a: nat, b: nat): nat {
    if a == 0 then b
    else if b == 0 then a
    else (if a % 2 == 1 || b % 2 == 1 then 1 else 0) + 2 * BitOr(a / 2, b / 2)
  }

  /** Bit `i` of a word. */
  predicate Bit(w: nat, i: nat) {
    if i == 0 then w % 2 == 1 else Bit(w / 2, i - 1)
  }

  lemma {:induction false} ShiftLeftAdd(a: nat, b: nat, k: nat)
    ensures ShiftLeft(a + b, k) == ShiftLeft(a, k) + ShiftLeft(b, k)
  {
    if k > 0 {
      ShiftLeftAdd(a, b, k - 1);
    }
  }

  lemma {:induction false} ShiftLeftSeven(b: nat, k: nat)
    ensures ShiftLeft(b, k + 7) == 128 * ShiftLeft(b, k)
    ensures ShiftLeft(128 * b, k) == 128 * ShiftLeft(b, k)
    ensures Pow2(k + 7) == 128 * Pow2(k)
  {
    if k > 0 {
      ShiftLeftSeven(b, k - 1);
    } else {
      assert ShiftLeft(b, 1) == 2 * b;
      assert ShiftLeft(b, 2) == 4 * b;
      assert ShiftLeft(b, 4) == 4 * ShiftLeft(b, 2);
      assert ShiftLeft(b, 6) == 4 * ShiftLeft(b, 4);
      assert Pow2(7) == 128;
    }
  }

  lemma {:induction false} ShiftLeftBelow(a: nat, n: nat, k: nat)
    requires a < n
    ensures ShiftLeft(a, k) + Pow2(k) <= ShiftLeft(n, k)
  {
    if k > 0 {
      ShiftLeftBelow(a, n, k - 1);
    }
  }

  lemma {:induction false} ShiftOne(k: nat)
    ensures ShiftLeft(1, k) == Pow2(k)
  {
    if k > 0 {
      ShiftOne(k - 1);
    }
  }

  lemma {:induction false} OrDisjoint(a: nat, b: nat, k: nat)
    requires a < Pow2(k)
    ensures BitOr(a, ShiftLeft(b, k)) == a + ShiftLeft(b, k)
  {
    if k > 0 && a > 0 && b > 0 {
      var c := ShiftLeft(b, k - 1);
      OrDisjoint(a / 2, b, k - 1);
      assert BitOr(a, 2 * c) == a % 2 + 2 * BitOr(a / 2, c);
    } else if b == 0 {
      ShiftLeftZero(k);
    }
  }

  lemma {:induction false} ShiftLeftZero(k: nat)
    ensures ShiftLeft(0, k) == 0
  {
    if k > 0 {
      ShiftLeftZero(k - 1);
    }
  }

  lemma {:induction false} OrBound(a: nat, b: nat, k: nat)
    requires a < Pow2(k) && b < Pow2(k)
    ensures BitOr(a, b) < Pow2(k)
  {
    if k > 0 && a > 0 && b > 0 {
      OrBound(a / 2, b / 2, k - 1);
    }
  }

  lemma {:induction false} OrBits(a: nat, b: nat, i: nat)
    ensures Bit(BitOr(a, b), i) <==> Bit(a, i) || Bit(b, i)
  {
    ZeroHasNoBits(i);
    if i > 0 && a > 0 && b > 0 {
      assert BitOr(a, b) / 2 == BitOr(a / 2, b / 2);
      OrBits(a / 2, b / 2, i - 1);
    }
  }

  lemma {:induction false} ZeroHasNoBits(i: nat)
    ensures !Bit(0, i)
  {
    if i > 0 {
      ZeroHasNoBits(i - 1);
    }
  }

  lemma {:induction false} OneBit(k: nat, i: nat)
    ensures Bit(Pow2(k), i) <==> i == k
  {
    if k == 0 {
      if i > 0 {
        ZeroHasNoBits(i - 1);
      }
    } else if i > 0 {
      OneBit(k - 1, i - 1);
    }
  }

  lemma {:induction false} OnesHaveBits(n: nat, i: nat)
    requires i < n
    ensures Bit(Pow2(n) - 1, i)
  {
    assert (Pow2(n) - 1) / 2 == Pow2(n - 1) - 1;
    if i > 0 {
      OnesHaveBits(n - 1, i - 1);
    }
  }

  ghost predicate LowBitsSet(w: nat, n: nat) {
    forall i :: 0 <= i < n ==> Bit(w, i)
  }

  lemma {:induction false} FullBitsAreOnes(w: nat, n: nat)
    requires w < Pow2(n)
    requires LowBitsSet(w, n)
    ensures w == Pow2(n) - 1
  {
    if n > 0 {
      assert Bit(w, 0);
      forall i | 0 <= i < n - 1 ensures Bit(w / 2, i) {
        assert Bit(w, i + 1);
      }
      FullBitsAreOnes(w / 2, n - 1);
    }
  }

  /** A word below 2^n is all ones in its low n bits exactly when each of those bits is set. */
  lemma AllOnes(w: nat, n: nat)
    requires w < Pow2(n)
    ensures w == Pow2(n) - 1 <==> LowBitsSet(w, n)
  {
    if w == Pow2(n) - 1 {
      forall i | 0 <= i < n ensures Bit(w, i) {
        OnesHaveBits(n, i);
      }
    } else if LowBitsSet(w, n) {
      FullBitsAreOnes(w, n);
    }
  }

  lemma {:induction false} PowAdd(a: nat, b: nat)
    ensures Pow2(a + b) == Pow2(a) * Pow2(b)
  {
    if a > 0 {
      PowAdd(a - 1, b);
    }
  }

  lemma {:induction false} PowMonotone(a: nat, b: nat)
    requires a <= b
    ensures Pow2(a) <= Pow2(b)
  {
    if a < b {
      PowMonotone(a, b - 1);
    }
  }

  /** The word sizes. The exponent is a parameter so that callers need not unfold Pow2 on a numeral. */
  lemma WordPower(n: nat)
    requires n == 8 || n == 32 || n == 64
    ensures Pow2(n) == if n == 8 then 0x100 else if n == 32 then TWO32 else TWO64
  {
    assert Pow2(8) == 0x100;
    PowAdd(8, 8);
    PowAdd(16, 16);
    PowAdd(32, 32);
  }
}
