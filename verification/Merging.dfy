/**
 Decoding the concatenation of two inputs is decoding one after the other into the same struct,
 the merge that pb_decode_noinit documents.
 */
module Merging {
  import opened Basics
  import opened Wire
  import opened Descriptor
  import opened Scalars
  import opened Decoder

  /** Consumed without meeting a zero terminator. */
  predicate RunsToEnd(o: Outcome) {
    o.Accept? && o.atEnd
  }

  function WithSeen(o: Outcome, extra: set<nat>): Outcome {
    if o.Accept? then o.(seen := o.seen + extra) else o
  }

  /** Tags found before the loop do not influence it. */
  lemma {:induction false} SeenIsPassive(d: Desc, m: Message, seen: set<nat>, extra: set<nat>, s: bytes)
    ensures DecodeLoop(d, m, seen + extra, s) == WithSeen(DecodeLoop(d, m, seen, s), extra)
    decreases |s|
  {
    var t := ReadTag(s);
    if s != [] && t.Tag? {
      TagExtend(s, []);
      if Find(d, t.tag).None? {
        UnknownFacts(d, t.tag, t.wt, t.rest, []);
        var r := SkipUnknown(d, t.tag, t.wt, t.rest);
        if r.Got? {
          SeenIsPassive(d, m, seen, extra, r.rest);
        }
      } else {
        var f := Find(d, t.tag).value;
        SkipRecordFacts(f, t.wt, t.rest, []);
        var r := DecodeSlot(f, t.wt, SlotAt(m, f.storage), t.rest);
        if r.Got? {
          SeenIsPassive(d, Put(m, f.storage, r.value), seen + {t.tag}, extra, r.rest);
          assert seen + extra + {t.tag} == seen + {t.tag} + extra;
        }
      }
    }
  }

  /** The loop on a followed by b is the loop on b from where a left off, rejected or accepted. */
  lemma {:induction false} LoopConcat(d: Desc, m: Message, seen: set<nat>, a: bytes, b: bytes)
    requires RunsToEnd(DecodeLoop(d, m, seen, a))
    ensures var o := DecodeLoop(d, m, seen, a);
            DecodeLoop(d, m, seen, a + b) == DecodeLoop(d, o.m, o.seen, b)
    decreases |a|
  {
    if a == [] {
      assert a + b == b;
    } else {
      var t := ReadTag(a);
      TagExtend(a, b);
      if Find(d, t.tag).None? {
        UnknownFacts(d, t.tag, t.wt, t.rest, b);
        LoopConcat(d, m, seen, SkipUnknown(d, t.tag, t.wt, t.rest).rest, b);
      } else {
        var f := Find(d, t.tag).value;
        SkipRecordFacts(f, t.wt, t.rest, b);
        SlotExtend(f, t.wt, SlotAt(m, f.storage), t.rest, b);
        var r := DecodeSlot(f, t.wt, SlotAt(m, f.storage), t.rest);
        LoopConcat(d, Put(m, f.storage, r.value), seen + {t.tag}, r.rest, b);
      }
    }
  }

  lemma RequiredSeenMonotone(d: Desc, seen: set<nat>, more: set<nat>)
    requires RequiredSeen(d, seen) && seen <= more
    ensures RequiredSeen(d, more)
  {
  }

  /**
   After an accepted input a without terminator, a followed by b is accepted exactly when the
   loop accepts b into the struct a left, and gives that struct; b need not repeat required fields.
   */
  lemma ConcatenationMerges(d: Desc, m: Message, a: bytes, b: bytes)
    requires RunsToEnd(DecodeLoop(d, m, {}, a)) && DecodeNoInit(d, m, a).Got?
    ensures var merged := DecodeLoop(d, DecodeNoInit(d, m, a).value, {}, b);
            DecodeNoInit(d, m, a + b) == if merged.Accept? then Got(merged.m, merged.rest) else Fail
  {
    var o := DecodeLoop(d, m, {}, a);
    LoopConcat(d, m, {}, a, b);
    SeenIsPassive(d, o.m, {}, o.seen, b);
    assert {} + o.seen == o.seen;
    var merged := DecodeLoop(d, o.m, {}, b);
    if merged.Accept? {
      RequiredSeenMonotone(d, o.seen, merged.seen + o.seen);
    }
  }

  /** Accepted one after the other means accepted together, with the same struct. */
  lemma ConcatenationIsMerging(d: Desc, m: Message, a: bytes, b: bytes)
    requires RunsToEnd(DecodeLoop(d, m, {}, a)) && DecodeNoInit(d, m, a).Got?
    requires DecodeNoInit(d, DecodeNoInit(d, m, a).value, b).Got?
    ensures DecodeNoInit(d, m, a + b) == DecodeNoInit(d, DecodeNoInit(d, m, a).value, b)
  {
    ConcatenationMerges(d, m, a, b);
  }
}
