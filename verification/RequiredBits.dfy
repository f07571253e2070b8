/**
 The required-field bitmap of pb_decode_noinit: two 32-bit words, updated with `|=` and compared at the
 end, against the set of required fields that occurred.
 */
module RequiredBits {
  import opened Bits
  import opened Descriptor
  import opened Decoder

  /** Bit i of the bitmap: bit i & 31 of word i >> 5. */
  predicate BitAt(words: seq<nat>, i: nat)
    requires |words| == 2 && i < 64
  {
    Bit(words[i / 32], i % 32)
  }

  /** The two words hold exactly the numbers of `s`. */
  predicate Holds(words: seq<nat>, s: set<nat>) {
    && |words| == 2
    && words[0] < TWO32 && words[1] < TWO32
    && forall i | 0 <= i < 64 :: BitAt(words, i) <==> i in s
  }

  /** fields_seen[index >> 5] |= 1 << (index & 31), for the first 64 required fields. */
  method MarkSeen(fieldsSeen: array<nat>, index: nat, ghost s: set<nat>)
    requires fieldsSeen.Length == 2 && Holds(fieldsSeen[..], s)
    modifies fieldsSeen
    ensures Holds(fieldsSeen[..], if index < MAX_REQUIRED_FIELDS then s + {index} else s)
  {
    if index < MAX_REQUIRED_FIELDS {
      var bit := ShiftLeft(1, index % 32);
      var w := index / 32;
      ghost var before := fieldsSeen[..];
      ghost var size := 32;
      SingleBit(index % 32);
      WordPower(size);
      OrBound(fieldsSeen[w], bit, size);
      fieldsSeen[w] := BitOr(fieldsSeen[w], bit);
      forall i | 0 <= i < 64 ensures BitAt(fieldsSeen[..], i) <==> i in s + {index} {
        assert BitAt(before, i) <==> i in s;
        OneBit(index % 32, i % 32);
        OrBits(before[w], bit, i % 32);
      }
    }
  }

  lemma SingleBit(k: nat)
    requires k < 32
    ensures ShiftLeft(1, k) == Pow2(k) < TWO32
  {
    var size := 32;
    ShiftOne(k);
    PowMonotone(k + 1, size);
    WordPower(size);
  }

  lemma {:induction false} ShiftRightOnes(n: nat, k: nat)
    requires k <= n
    ensures ShiftRight(Pow2(n) - 1, k) == Pow2(n - k) - 1
  {
    if k > 0 {
      assert (Pow2(n) - 1) / 2 == Pow2(n - 1) - 1;
      ShiftRightOnes(n - 1, k - 1);
    }
  }

  /** The k low bits of word j stand for the k numbers from 32 * j. */
  lemma LowBitsMean(words: seq<nat>, s: set<nat>, j: nat, k: nat)
    requires Holds(words, s) && j < 2 && k <= 32
    ensures LowBitsSet(words[j], k) <==> forall i | 32 * j <= i < 32 * j + k :: i in s
  {
    if LowBitsSet(words[j], k) {
      forall i | 32 * j <= i < 32 * j + k ensures i in s {
        assert BitAt(words, i) <==> Bit(words[j], i - 32 * j);
      }
    }
    if forall i | 32 * j <= i < 32 * j + k :: i in s {
      forall i | 0 <= i < k ensures Bit(words[j], i) {
        assert BitAt(words, 32 * j + i);
      }
    }
  }

  lemma FullWord(words: seq<nat>, s: set<nat>, j: nat)
    requires Holds(words, s) && j < 2
    ensures words[j] == TWO32 - 1 <==> forall i | 32 * j <= i < 32 * j + 32 :: i in s
  {
    var size := 32;
    WordPower(size);
    AllOnes(words[j], size);
    LowBitsMean(words, s, j, size);
  }

  lemma {:induction false} HighBitsClear(w: nat, n: nat, k: nat)
    requires w < Pow2(n) && k <= n
    requires forall i | k <= i < n :: !Bit(w, i)
    ensures w < Pow2(k)
    decreases n - k
  {
    if k < n {
      TopBit(w, n - 1);
      HighBitsClear(w, n - 1, k);
    }
  }

  /** A word below 2^(n+1) whose bit n is clear is below 2^n. */
  lemma {:induction false} TopBit(w: nat, n: nat)
    requires w < Pow2(n + 1) && !Bit(w, n)
    ensures w < Pow2(n)
  {
    if n > 0 {
      TopBit(w / 2, n - 1);
    }
  }

  /** The remaining k bits of word j, when nothing beyond them was ever set. */
  lemma PartialWord(words: seq<nat>, s: set<nat>, j: nat, k: nat)
    requires Holds(words, s) && j < 2 && k < 32
    requires forall i | i in s :: i < 32 * j + k
    ensures words[j] == ShiftRight(TWO32 - 1, 32 - k) <==> forall i | 32 * j <= i < 32 * j + k :: i in s
  {
    var size := 32;
    MaskIs(size, k);
    NothingAbove(words, s, j, k, size);
    HighBitsClear(words[j], size, k);
    AllOnes(words[j], k);
    LowBitsMean(words, s, j, k);
  }

  /** The mask of the last comparison */
  lemma MaskIs(size: nat, k: nat)
    requires size == 32 && k <= size
    ensures ShiftRight(TWO32 - 1, 32 - k) == Pow2(k) - 1 && Pow2(size) == TWO32
  {
    WordPower(size);
    ShiftRightOnes(size, size - k);
  }

  lemma NothingAbove(words: seq<nat>, s: set<nat>, j: nat, k: nat, size: nat)
    requires Holds(words, s) && j < 2 && k < 32 == size
    requires forall i | i in s :: i < 32 * j + k
    ensures forall i | k <= i < size :: !Bit(words[j], i)
  {
    forall i | k <= i < size ensures !Bit(words[j], i) {
      assert BitAt(words, 32 * j + i) <==> 32 * j + i in s;
    }
  }

  /** The final check: every number below the capped count was marked. */
  method CheckSeen(fieldsSeen: array<nat>, count: nat, ghost s: set<nat>) returns (ok: bool)
    requires fieldsSeen.Length == 2 && Holds(fieldsSeen[..], s)
    requires forall i | i in s :: i < count
    ensures ok <==> forall i | 0 <= i < count && i < MAX_REQUIRED_FIELDS :: i in s
  {
    var n := if count > MAX_REQUIRED_FIELDS then MAX_REQUIRED_FIELDS else count;
    ghost var t := set i | i in s && i < MAX_REQUIRED_FIELDS;
    assert Holds(fieldsSeen[..], t);
    if n > 0 {
      var i := 0;
      while i < n / 32
        invariant i <= n / 32 <= 2
        invariant forall j | 0 <= j < 32 * i :: j in t
      {
        FullWord(fieldsSeen[..], t, i);
        if fieldsSeen[i] != TWO32 - 1 {
          assert !(forall j | 32 * i <= j < 32 * i + 32 :: j in t);
          return false;
        }
        i := i + 1;
      }
      if n % 32 != 0 {
        PartialWord(fieldsSeen[..], t, i, n % 32);
        if fieldsSeen[n / 32] != ShiftRight(TWO32 - 1, 32 - n % 32) {
          return false;
        }
      }
    }
    return true;
  }

  // ---- Numbers of required fields ----

  function RequiredCount(d: Desc): nat {
    RequiredBefore(d, |d.fields|)
  }

  /** The numbers of the required fields among the first 64 whose tags occurred. */
  function SeenNumbers(d: Desc, seen: set<nat>): set<nat> {
    set p | 0 <= p < |d.fields| && d.fields[p].htype.Required? && RequiredBefore(d, p) < MAX_REQUIRED_FIELDS
            && d.fields[p].tag in seen :: RequiredBefore(d, p)
  }

  lemma {:induction false} RequiredMonotone(d: Desc, p: nat, q: nat)
    requires p <= q <= |d.fields|
    ensures RequiredBefore(d, p) <= RequiredBefore(d, q)
    ensures p < q && d.fields[p].htype.Required? ==> RequiredBefore(d, p) < RequiredBefore(d, q)
    decreases q - p
  {
    if p < q {
      RequiredMonotone(d, p, q - 1);
    }
  }

  lemma {:induction false} RequiredWithNumber(d: Desc, n: nat, i: nat) returns (p: nat)
    requires n <= |d.fields| && i < RequiredBefore(d, n)
    ensures p < n && d.fields[p].htype.Required? && RequiredBefore(d, p) == i
  {
    if RequiredBefore(d, n - 1) == i {
      p := n - 1;
    } else {
      p := RequiredWithNumber(d, n - 1, i);
    }
  }

  lemma SeenNumbersBound(d: Desc, seen: set<nat>)
    ensures forall i | i in SeenNumbers(d, seen) :: i < RequiredCount(d)
  {
    forall i | i in SeenNumbers(d, seen) ensures i < RequiredCount(d) {
      var p :| 0 <= p < |d.fields| && d.fields[p].htype.Required? && RequiredBefore(d, p) == i;
      RequiredMonotone(d, p, |d.fields|);
    }
  }

  /** All capped numbers are seen exactly when each of the first 64 required fields occurred. */
  lemma NumbersMeanRequired(d: Desc, seen: set<nat>)
    ensures (forall i | 0 <= i < RequiredCount(d) && i < MAX_REQUIRED_FIELDS :: i in SeenNumbers(d, seen))
       <==> RequiredSeen(d, seen)
  {
    if RequiredSeen(d, seen) {
      forall i | 0 <= i < RequiredCount(d) && i < MAX_REQUIRED_FIELDS ensures i in SeenNumbers(d, seen) {
        var p := RequiredWithNumber(d, |d.fields|, i);
        assert d.fields[p].tag in seen;
      }
    }
    if forall i | 0 <= i < RequiredCount(d) && i < MAX_REQUIRED_FIELDS :: i in SeenNumbers(d, seen) {
      forall q | 0 <= q < |d.fields| && d.fields[q].htype.Required? && RequiredBefore(d, q) < MAX_REQUIRED_FIELDS
        ensures d.fields[q].tag in seen
      {
        RequiredMonotone(d, q, |d.fields|);
        var i := RequiredBefore(d, q);
        assert i in SeenNumbers(d, seen);
        var p :| 0 <= p < |d.fields| && d.fields[p].htype.Required? && d.fields[p].tag in seen
            && RequiredBefore(d, p) == i;
        RequiredMonotone(d, if p < q then p else q, if p < q then q else p);
        assert p == q;
      }
    }
  }

  /** The required field at p counts for the bitmap. */
  predicate Counted(d: Desc, p: nat)
    requires p < |d.fields|
  {
    d.fields[p].htype.Required? && RequiredBefore(d, p) < MAX_REQUIRED_FIELDS
  }

  /** Some field with this number occurred. */
  predicate NumberSeen(d: Desc, seen: set<nat>, i: nat) {
    exists q | 0 <= q < |d.fields| :: Counted(d, q) && RequiredBefore(d, q) == i && d.fields[q].tag in seen
  }

  lemma SeenNumberOf(d: Desc, seen: set<nat>, i: nat)
    ensures i in SeenNumbers(d, seen) <==> NumberSeen(d, seen, i)
  {
    if i in SeenNumbers(d, seen) {
      var q :| 0 <= q < |d.fields| && d.fields[q].htype.Required? && RequiredBefore(d, q) == i
               && RequiredBefore(d, q) < MAX_REQUIRED_FIELDS && d.fields[q].tag in seen;
      assert Counted(d, q);
    }
  }

  lemma NumberSeenAdd(d: Desc, seen: set<nat>, p: nat, i: nat)
    requires WellFormed(d) && p < |d.fields|
    ensures NumberSeen(d, seen + {d.fields[p].tag}, i)
       <==> NumberSeen(d, seen, i) || (Counted(d, p) && RequiredBefore(d, p) == i)
  {
    var more := seen + {d.fields[p].tag};
    if NumberSeen(d, more, i) {
      var q :| 0 <= q < |d.fields| && Counted(d, q) && RequiredBefore(d, q) == i && d.fields[q].tag in more;
      assert d.fields[q].tag in seen || d.fields[q].tag == d.fields[p].tag;
    }
    if NumberSeen(d, seen, i) {
      var q :| 0 <= q < |d.fields| && Counted(d, q) && RequiredBefore(d, q) == i && d.fields[q].tag in seen;
      assert d.fields[q].tag in more;
    }
  }

  /** Finding a field adds its number, if it is required and among the first 64. */
  lemma SeenNumbersAdd(d: Desc, seen: set<nat>, p: nat)
    requires WellFormed(d) && p < |d.fields|
    ensures SeenNumbers(d, seen + {d.fields[p].tag})
         == SeenNumbers(d, seen) + if Counted(d, p) then {RequiredBefore(d, p)} else {}
  {
    var more, less := SeenNumbers(d, seen + {d.fields[p].tag}), SeenNumbers(d, seen);
    forall i: nat ensures i in more <==> i in less || (Counted(d, p) && RequiredBefore(d, p) == i) {
      SeenNumberOf(d, seen + {d.fields[p].tag}, i);
      SeenNumberOf(d, seen, i);
      NumberSeenAdd(d, seen, p, i);
    }
  }
}
