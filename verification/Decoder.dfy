/**
 pb_decode and its helpers as functions on byte sequences: what a decode call accepts, what it
 leaves in the struct and where it stops.
 */
module Decoder {
  import opened Basics
  import opened Wire
  import opened Descriptor
  import opened Scalars

  const MAX_REQUIRED_FIELDS := 64

  datatype TagRead = BadTag | EndMark(rest: bytes) | Tag(tag: nat, wt: WireType, rest: bytes)

  /** Where the loop of pb_decode_noinit stops: `atEnd` is false after a zero terminator. */
  datatype Outcome = Reject | Accept(m: Message, seen: set<nat>, atEnd: bool, rest: bytes)

  /** pb_decode_tag */
  function ReadTag(s: bytes): TagRead {
    match ReadVarint32(s)
    case Fail => BadTag
    case Got(v, rest) => if v == 0 then EndMark(rest) else Tag(v / 8, WireTypeOf(v % 8), rest)
  }

  /** A descriptor without fields takes a record with tag 0 for its terminator entry, a bool. */
  function SkipUnknown(d: Desc, tag: nat, wt: WireType, s: bytes): Read<()> {
    if d.fields == [] && tag == 0 then
      match ReadVarint32(s)
      case Fail => Fail
      case Got(_, rest) => Got((), rest)
    else SkipField(wt, s)
  }

  function ItemsOf(slot: Slot): seq<Value> {
    if slot.SRepeated? then slot.items else []
  }

  /** What the destination of the next value of this field holds before it is decoded. */
  function CurrentValue(f: Field, slot: Slot): Value {
    match f.htype
    case Required => if slot.SValue? then slot.v else ZeroValue(f)
    case Optional => if slot.SValue? || slot.SOptional? then slot.v else ZeroValue(f)
    case Repeated => ZeroValue(f)
    case Oneof => if slot.SOne? && slot.which == f.tag then slot.v else ZeroValue(f)
  }

  function MessageOf(d: Desc, v: Value): Message {
    if v.VMessage? then v.msg else Defaults(d)
  }

  /** The slot after one more value of the field. */
  function StoreValue(f: Field, slot: Slot, v: Value): Slot {
    match f.htype
    case Required => SValue(v)
    case Optional => if IsSingular(f) then SValue(v) else SOptional(true, v)
    case Repeated => SRepeated(ItemsOf(slot) + [v])
    case Oneof => SOne(f.tag, v)
  }

  /** The packed branch of decode_static_field: the whole frame, within array_size. */
  function DecodePacked(f: Field, items: seq<Value>, s: bytes): Option<seq<Value>>
    decreases |s|
  {
    if s == [] then Some(items)
    else if |items| >= f.arraySize then None
    else
      match DecodeScalar(f, s)
      case Fail => None
      case Got(v, rest) =>
        ScalarExtent(f, s);
        DecodePacked(f, items + [v], rest)
  }

  function DecodeValue(f: Field, current: Value, s: bytes): (r: Read<Value>)
    ensures r.Got? ==> SkipLType(f.ltype, s) == Got((), r.rest)
    decreases |s|, 0
  {
    if f.ltype.LSubmessage? then
      BlobFrame(s);
      match ReadBlob(s)
      case Fail => Fail
      case Got(frame, rest) =>
        match DecodeNoInit(f.ltype.sub, MessageOf(f.ltype.sub, current), frame)
        case Fail => Fail
        case Got(m, _) => Got(VMessage(m), rest)
    else
      ScalarExtent(f, s);
      DecodeScalar(f, s)
  }

  /** decode_static_field */
  function DecodeSlot(f: Field, wt: WireType, slot: Slot, s: bytes): (r: Read<Slot>)
    ensures r.Got? ==> SkipRecord(f, wt, s) == Got((), r.rest)
    decreases |s|, 1
  {
    if IsPacked(f, wt) then
      BlobFrame(s);
      match ReadBlob(s)
      case Fail => Fail
      case Got(frame, rest) =>
        match DecodePacked(f, ItemsOf(slot), frame)
        case None => Fail
        case Some(items) => Got(SRepeated(items), rest)
    else if f.htype.Repeated? && |ItemsOf(slot)| >= f.arraySize then Fail
    else
      match DecodeValue(f, CurrentValue(f, slot), s)
      case Fail => Fail
      case Got(v, rest) => Got(StoreValue(f, slot, v), rest)
  }

  function Put(m: Message, k: nat, slot: Slot): Message {
    Message(m.slots[k := slot])
  }

  /** The main loop of pb_decode_noinit; `seen` collects the tags of the fields found. */
  function DecodeLoop(d: Desc, m: Message, seen: set<nat>, s: bytes): Outcome
    decreases |s|, 2
  {
    if s == [] then Accept(m, seen, true, [])
    else
      Varint32Frame(s);
      match ReadTag(s)
      case BadTag => Reject
      case EndMark(rest) => Accept(m, seen, false, rest)
      case Tag(tag, wt, rest) =>
        match Find(d, tag)
        case None =>
          UnknownFacts(d, tag, wt, rest, []);
          (match SkipUnknown(d, tag, wt, rest)
           case Fail => Reject
           case Got(_, rest') => DecodeLoop(d, m, seen, rest'))
        case Some(f) =>
          SkipRecordFacts(f, wt, rest, []);
          match DecodeSlot(f, wt, SlotAt(m, f.storage), rest)
          case Fail => Reject
          case Got(slot, rest') => DecodeLoop(d, Put(m, f.storage, slot), seen + {tag}, rest')
  }

  function RequiredBefore(d: Desc, i: nat): (n: nat)
    requires i <= |d.fields|
    ensures n <= i
  {
    if i == 0 then 0
    else RequiredBefore(d, i - 1) + if d.fields[i - 1].htype.Required? then 1 else 0
  }

  /** Each of the first 64 required fields occurred. */
  predicate RequiredSeen(d: Desc, seen: set<nat>) {
    forall i | 0 <= i < |d.fields| && d.fields[i].htype.Required? && RequiredBefore(d, i) < MAX_REQUIRED_FIELDS ::
      d.fields[i].tag in seen
  }

  /** pb_decode_noinit */
  function DecodeNoInit(d: Desc, m: Message, s: bytes): Read<Message>
    decreases |s|, 3
  {
    match DecodeLoop(d, m, {}, s)
    case Reject => Fail
    case Accept(m', seen, _, rest) => if RequiredSeen(d, seen) then Got(m', rest) else Fail
  }

  /** pb_decode */
  function Decode(d: Desc, s: bytes): Read<Message> {
    DecodeNoInit(d, Defaults(d), s)
  }

  // ---- Extents ----

  lemma UnknownFacts(d: Desc, tag: nat, wt: WireType, s: bytes, x: bytes)
    ensures Progress(s, SkipUnknown(d, tag, wt, s))
    ensures SkipUnknown(d, tag, wt, s).Got? ==> SkipUnknown(d, tag, wt, s + x) == Extend(SkipUnknown(d, tag, wt, s), x)
  {
    SkipFieldFacts(wt, s, x);
    Varint32Frame(s);
    if ReadVarint32(s).Got? {
      VarintExtend(s, x);
    }
  }

  lemma TagExtend(s: bytes, x: bytes)
    requires !ReadTag(s).BadTag?
    ensures Progress(s, Got((), ReadTag(s).rest))
    ensures ReadTag(s + x) == ReadTag(s).(rest := ReadTag(s).rest + x)
  {
    Varint32Frame(s);
    VarintExtend(s, x);
  }

  lemma ValueExtend(f: Field, current: Value, s: bytes, x: bytes)
    requires SkipLType(f.ltype, s).Got?
    ensures DecodeValue(f, current, s + x) == Extend(DecodeValue(f, current, s), x)
  {
    if f.ltype.LSubmessage? {
      BlobExtend(s, x);
    } else {
      ScalarExtend(f, s, x);
    }
  }

  /** Once its extent is complete, a record decodes the same whatever follows it. */
  lemma SlotExtend(f: Field, wt: WireType, slot: Slot, s: bytes, x: bytes)
    requires SkipRecord(f, wt, s).Got?
    ensures DecodeSlot(f, wt, slot, s + x) == Extend(DecodeSlot(f, wt, slot, s), x)
  {
    if IsPacked(f, wt) {
      BlobExtend(s, x);
    } else {
      ValueExtend(f, CurrentValue(f, slot), s, x);
    }
  }
}
