/**
 How deep pb_decode calls itself. Every submessage costs at least a tag byte and a length byte, so the
 recursion is never deeper than half the input, whatever the bytes are.
 */
module Nesting {
  import opened Basics
  import opened Wire
  import opened Descriptor
  import opened Scalars
  import opened Decoder

  function Max(a: nat, b: nat): nat {
    if a < b then b else a
  }

  /** The number of pb_decode calls nested inside the decoding of one record of a known field. */
  function RecordDepth(f: Field, wt: WireType, slot: Slot, s: bytes): nat
    decreases |s|, 0
  {
    if !f.ltype.LSubmessage? || (f.htype.Repeated? && |ItemsOf(slot)| >= f.arraySize) then 0
    else
      BlobFrame(s);
      match ReadBlob(s)
      case Fail => 0
      case Got(frame, _) => 1 + Depth(f.ltype.sub, MessageOf(f.ltype.sub, CurrentValue(f, slot)), frame)
  }

  /** The number of pb_decode calls nested inside the loop of pb_decode_noinit on these bytes. */
  function Depth(d: Desc, m: Message, s: bytes): nat
    decreases |s|, 1
  {
    if s == [] then 0
    else
      Varint32Frame(s);
      match ReadTag(s)
      case BadTag => 0
      case EndMark(_) => 0
      case Tag(tag, wt, rest) =>
        match Find(d, tag)
        case None =>
          UnknownFacts(d, tag, wt, rest, []);
          (match SkipUnknown(d, tag, wt, rest)
           case Fail => 0
           case Got(_, rest') => Depth(d, m, rest'))
        case Some(f) =>
          SkipRecordFacts(f, wt, rest, []);
          Max(RecordDepth(f, wt, SlotAt(m, f.storage), rest),
              match DecodeSlot(f, wt, SlotAt(m, f.storage), rest)
              case Fail => 0
              case Got(slot, rest') => Depth(d, Put(m, f.storage, slot), rest'))
  }

  /** On every input, accepted or not, submessages nest at most |s| / 2 deep. */
  lemma {:induction false} DepthBound(d: Desc, m: Message, s: bytes)
    ensures 2 * Depth(d, m, s) <= |s|
    decreases |s|, 1
  {
    Varint32Frame(s);
    if s != [] && ReadTag(s).Tag? {
      var tag, wt, rest := ReadTag(s).tag, ReadTag(s).wt, ReadTag(s).rest;
      if Find(d, tag).None? {
        UnknownFacts(d, tag, wt, rest, []);
        if SkipUnknown(d, tag, wt, rest).Got? {
          DepthBound(d, m, SkipUnknown(d, tag, wt, rest).rest);
        }
      } else {
        var f := Find(d, tag).value;
        var r := DecodeSlot(f, wt, SlotAt(m, f.storage), rest);
        SkipRecordFacts(f, wt, rest, []);
        RecordDepthBound(f, wt, SlotAt(m, f.storage), rest);
        if r.Got? {
          DepthBound(d, Put(m, f.storage, r.value), r.rest);
        }
      }
    }
  }

  lemma {:induction false} RecordDepthBound(f: Field, wt: WireType, slot: Slot, s: bytes)
    ensures 2 * RecordDepth(f, wt, slot, s) <= |s| + 1
    decreases |s|, 0
  {
    BlobFrame(s);
    if f.ltype.LSubmessage? && ReadBlob(s).Got? {
      DepthBound(f.ltype.sub, MessageOf(f.ltype.sub, CurrentValue(f, slot)), ReadBlob(s).value);
    }
  }
}
