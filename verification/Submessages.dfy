/**
 What one record does to its field, written out for every field rule: scalars replace, arrays grow, and a submessage is
 decoded into what the field already holds, so that two frames of one submessage are merged.
 */
module Submessages {
  import opened Basics
  import opened Bits
  import opened Wire
  import opened Descriptor
  import opened Scalars
  import opened Decoder
  import opened Encoder
  import opened Merging
  import opened RoundTrip

  /** The loop after a record was stored, or a rejection. */
  function Stored(d: Desc, m: Message, seen: set<nat>, f: Field, slot: Option<Slot>, t: bytes): Outcome {
    match slot
    case None => Reject
    case Some(s) => DecodeLoop(d, Put(m, f.storage, s), seen + {f.tag}, t)
  }

  /** The slot is of the field's rule, with a struct in it where a submessage is expected. */
  predicate RuleShape(f: Field, slot: Slot) {
    match f.htype
    case Required => slot.SValue? && (f.ltype.LSubmessage? ==> slot.v.VMessage?)
    case Optional =>
      if f.sizeOffset == 0 then slot.SValue? && (f.ltype.LSubmessage? ==> slot.v.VMessage?)
      else slot.SOptional? && (f.ltype.LSubmessage? ==> slot.v.VMessage?)
    case Repeated => slot.SRepeated?
    case Oneof => slot.SNone? || (slot.SOne? && (f.ltype.LSubmessage? && slot.which == f.tag ==> slot.v.VMessage?))
  }

  predicate KnownIn(d: Desc, f: Field, m: Message) {
    WellFormedField(f) && Find(d, f.tag) == Some(f) && RuleShape(f, SlotAt(m, f.storage))
  }

  /** The record's tag, then its payload */
  lemma OneRecord(d: Desc, m: Message, seen: set<nat>, f: Field, payload: bytes, t: bytes)
    requires WellFormedField(f) && Find(d, f.tag) == Some(f)
    ensures DecodeLoop(d, m, seen, TagFor(f) + payload + t)
         == match DecodeSlot(f, WireTypeFor(f.ltype), SlotAt(m, f.storage), payload + t)
            case Fail => Reject
            case Got(slot, rest) => DecodeLoop(d, Put(m, f.storage, slot), seen + {f.tag}, rest)
  {
    var s := TagFor(f) + payload + t;
    assert s == TagFor(f) + (payload + t);
    KnownTag(f, payload + t);
    LoopKnown(d, m, seen, s, f, WireTypeFor(f.ltype), payload + t);
  }

  // ---- Scalars ----

  /** What a scalar record with value w leaves; None where an array has no room. */
  function ScalarSlot(f: Field, slot: Slot, w: Value): Option<Slot>
    requires RuleShape(f, slot)
  {
    match f.htype
    case Required => Some(SValue(w))
    case Optional => if f.sizeOffset == 0 then Some(SValue(w)) else Some(SOptional(true, w))
    case Repeated => if |slot.items| < f.arraySize then Some(SRepeated(slot.items + [w])) else None
    case Oneof => Some(SOne(f.tag, w))
  }

  /** The value is one that the encoder writes and the decoder has room for. */
  predicate Travels(f: Field, v: Value) {
    ScalarShape(f, v) && Terminated(f, v) && EncodableScalar(f, v) && |EncodeScalar(f, v)| < TWO32
  }

  /** A scalar record sets its field, whatever the field held before; in an array it is one more element. */
  lemma ScalarRecord(d: Desc, m: Message, seen: set<nat>, f: Field, v: Value, t: bytes)
    requires KnownIn(d, f, m) && !f.ltype.LSubmessage? && Travels(f, v)
    ensures DecodeLoop(d, m, seen, TagFor(f) + EncodeScalar(f, v) + t)
         == Stored(d, m, seen, f, ScalarSlot(f, SlotAt(m, f.storage), NormalScalar(f, v)), t)
  {
    OneRecord(d, m, seen, f, EncodeScalar(f, v), t);
    ScalarRoundTrip(f, v, t);
    assert !IsPacked(f, WireTypeFor(f.ltype));
  }

  lemma StoredTwice(d: Desc, m: Message, seen: set<nat>, f: Field, first: Slot, second: Slot, t: bytes)
    ensures Stored(d, Put(m, f.storage, first), seen + {f.tag}, f, Some(second), t)
         == Stored(d, m, seen, f, Some(second), t)
  {
    PutTwice(m, f.storage, first, second);
    assert seen + {f.tag} + {f.tag} == seen + {f.tag};
  }

  /** Of two records of a field that is no array, the last one counts. */
  lemma LastOneWins(d: Desc, m: Message, seen: set<nat>, f: Field, v: Value, w: Value, t: bytes)
    requires KnownIn(d, f, m) && !f.ltype.LSubmessage? && !f.htype.Repeated? && Travels(f, v) && Travels(f, w)
    ensures DecodeLoop(d, m, seen, TagFor(f) + EncodeScalar(f, v) + (TagFor(f) + EncodeScalar(f, w) + t))
         == DecodeLoop(d, m, seen, TagFor(f) + EncodeScalar(f, w) + t)
  {
    var slot := SlotAt(m, f.storage);
    var first := ScalarSlot(f, slot, NormalScalar(f, v)).value;
    var second := ScalarSlot(f, slot, NormalScalar(f, w)).value;
    ScalarRecord(d, m, seen, f, v, TagFor(f) + EncodeScalar(f, w) + t);
    ScalarRecord(d, Put(m, f.storage, first), seen + {f.tag}, f, w, t);
    ScalarRecord(d, m, seen, f, w, t);
    StoredTwice(d, m, seen, f, first, second, t);
  }

  // ---- Submessages ----

  /**
   The struct that a frame is decoded into: what a required or optional submessage holds already, whether it is marked
   as present or not; the current member of a oneof; otherwise, and for every array entry, the defaults.
   */
  function Target(f: Field, slot: Slot): Message
    requires f.ltype.LSubmessage? && RuleShape(f, slot)
  {
    match slot
    case SValue(v) => v.msg
    case SOptional(_, v) => v.msg
    case SOne(which, v) => if which == f.tag then v.msg else Defaults(f.ltype.sub)
    case SNone => Defaults(f.ltype.sub)
    case SRepeated(_) => Defaults(f.ltype.sub)
  }

  /** The slot with the decoded struct in it */
  function Filled(f: Field, slot: Slot, sub: Message): Slot
    requires RuleShape(f, slot)
  {
    match slot
    case SValue(_) => SValue(VMessage(sub))
    case SOptional(_, _) => SOptional(true, VMessage(sub))
    case SRepeated(items) => SRepeated(items + [VMessage(sub)])
    case SNone => SOne(f.tag, VMessage(sub))
    case SOne(_, _) => SOne(f.tag, VMessage(sub))
  }

  lemma TargetIsCurrent(f: Field, slot: Slot, x: Message)
    requires WellFormedField(f) && f.ltype.LSubmessage? && RuleShape(f, slot)
    ensures MessageOf(f.ltype.sub, CurrentValue(f, slot)) == Target(f, slot)
    ensures StoreValue(f, slot, VMessage(x)) == Filled(f, slot, x)
  {
  }

  /** What a frame leaves: it is decoded with pb_decode_noinit into its target; None for a rejection. */
  function FrameSlot(f: Field, slot: Slot, a: bytes): Option<Slot>
    requires f.ltype.LSubmessage? && RuleShape(f, slot)
  {
    if slot.SRepeated? && |slot.items| >= f.arraySize then None
    else
      match DecodeNoInit(f.ltype.sub, Target(f, slot), a)
      case Fail => None
      case Got(x, _) => Some(Filled(f, slot, x))
  }

  lemma SlotIsFilled(f: Field, slot: Slot, a: bytes, t: bytes)
    requires WellFormedField(f) && f.ltype.LSubmessage? && RuleShape(f, slot)
    requires ReadBlob(Blob(a) + t) == Got(a, t)
    ensures DecodeSlot(f, WireTypeFor(f.ltype), slot, Blob(a) + t)
         == if FrameSlot(f, slot, a).None? then Fail else Got(FrameSlot(f, slot, a).value, t)
  {
    var r := DecodeNoInit(f.ltype.sub, Target(f, slot), a);
    TargetIsCurrent(f, slot, if r.Got? then r.value else Message(map[]));
  }

  /** A record of a submessage field */
  lemma FrameRecord(d: Desc, m: Message, seen: set<nat>, f: Field, a: bytes, t: bytes)
    requires KnownIn(d, f, m) && f.ltype.LSubmessage? && |a| < TWO32
    ensures DecodeLoop(d, m, seen, TagFor(f) + Blob(a) + t)
         == Stored(d, m, seen, f, FrameSlot(f, SlotAt(m, f.storage), a), t)
  {
    OneRecord(d, m, seen, f, Blob(a), t);
    BlobRoundTrip(a, t);
    SlotIsFilled(f, SlotAt(m, f.storage), a, t);
  }

  /** The field is required, optional, or the current member of its oneof: its frames are merged. */
  predicate Merges(f: Field, slot: Slot) {
    slot.SValue? || slot.SOptional? || (slot.SOne? && slot.which == f.tag)
  }

  lemma FilledTwice(f: Field, slot: Slot, x: Message, y: Message)
    requires f.ltype.LSubmessage? && RuleShape(f, slot) && Merges(f, slot)
    ensures RuleShape(f, Filled(f, slot, x))
    ensures Target(f, Filled(f, slot, x)) == x && Merges(f, Filled(f, slot, x))
    ensures Filled(f, Filled(f, slot, x), y) == Filled(f, slot, y)
  {
  }

  /**
   Nested merging: when the submessage accepts a, without terminator, and then b, two frames a and b of one field leave
   the struct that the single frame a + b leaves.
   */
  lemma FramesMerge(d: Desc, m: Message, seen: set<nat>, f: Field, a: bytes, b: bytes, t: bytes)
    requires KnownIn(d, f, m) && f.ltype.LSubmessage? && Merges(f, SlotAt(m, f.storage)) && |a| + |b| < TWO32
    requires var sub, cur := f.ltype.sub, SlotAt(m, f.storage).v.msg;
             && RunsToEnd(DecodeLoop(sub, cur, {}, a)) && DecodeNoInit(sub, cur, a).Got?
             && DecodeNoInit(sub, DecodeNoInit(sub, cur, a).value, b).Got?
    ensures DecodeLoop(d, m, seen, TagFor(f) + Blob(a) + (TagFor(f) + Blob(b) + t))
         == DecodeLoop(d, m, seen, TagFor(f) + Blob(a + b) + t)
  {
    var sub, slot := f.ltype.sub, SlotAt(m, f.storage);
    var cur := slot.v.msg;
    var x := DecodeNoInit(sub, cur, a).value;
    var y := DecodeNoInit(sub, x, b).value;
    ConcatenationIsMerging(sub, cur, a, b);
    FilledTwice(f, slot, x, y);
    var m' := Put(m, f.storage, Filled(f, slot, x));
    FrameRecord(d, m, seen, f, a, TagFor(f) + Blob(b) + t);
    FrameRecord(d, m', seen + {f.tag}, f, b, t);
    FrameRecord(d, m, seen, f, a + b, t);
    StoredTwice(d, m, seen, f, Filled(f, slot, x), Filled(f, slot, y), t);
  }

  /** Selecting another member of a oneof forgets what the union held. */
  lemma SwitchStartsOver(d: Desc, m: Message, seen: set<nat>, f: Field, other: Slot, a: bytes, t: bytes)
    requires KnownIn(d, f, m) && f.ltype.LSubmessage? && f.htype.Oneof? && |a| < TWO32
    requires !Merges(f, SlotAt(m, f.storage)) && RuleShape(f, other) && !Merges(f, other)
    ensures DecodeLoop(d, Put(m, f.storage, other), seen, TagFor(f) + Blob(a) + t)
         == DecodeLoop(d, m, seen, TagFor(f) + Blob(a) + t)
  {
    FrameRecord(d, m, seen, f, a, t);
    FrameRecord(d, Put(m, f.storage, other), seen, f, a, t);
    var r := DecodeNoInit(f.ltype.sub, Defaults(f.ltype.sub), a);
    if r.Got? {
      PutTwice(m, f.storage, other, SOne(f.tag, VMessage(r.value)));
    }
  }
}
