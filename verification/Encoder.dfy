/**
 pb_encode as a function from a descriptor and a message to bytes, with the conditions under which
 the encoder reports an error kept apart in Encodable.
 */
module Encoder {
  import opened Basics
  import opened Wire
  import opened Descriptor
  import opened Scalars
  import opened Decoder

  // ---- pb_check_proto3_default_value ----

  predicate IsZeroValue(f: Field, v: Value)
    decreases f, 0
  {
    if f.ltype.LSubmessage? then IsZeroMessage(f.ltype.sub, MessageOf(f.ltype.sub, v)) else IsZeroScalar(f, v)
  }

  predicate IsZeroSlot(f: Field, slot: Slot)
    decreases f, 1
  {
    match f.htype
    case Required => false
    case Optional =>
      if IsSingular(f) then slot.SValue? && IsZeroValue(f, slot.v) else !(slot.SOptional? && slot.has)
    case Repeated => ItemsOf(slot) == []
    case Oneof => slot.SNone?
  }

  predicate IsZeroMessage(d: Desc, m: Message)
    decreases d, 0
  {
    forall i | 0 <= i < |d.fields| :: IsZeroSlot(d.fields[i], SlotAt(m, d.fields[i].storage))
  }

  // ---- pb_encode ----

  /** encode_basic_field writes something for this field. */
  predicate Emits(f: Field, slot: Slot) {
    match f.htype
    case Required => slot.SValue?
    case Optional =>
      if IsSingular(f) then slot.SValue? && !IsZeroValue(f, slot.v) else slot.SOptional? && slot.has
    case Repeated => slot.SRepeated? && slot.items != []
    case Oneof => slot.SOne? && slot.which == f.tag
  }

  function TagFor(f: Field): bytes {
    TagBytes(f.tag, WireTypeFor(f.ltype))
  }

  function EncodePacked(f: Field, items: seq<Value>): bytes {
    if items == [] then [] else EncodeScalar(f, items[0]) + EncodePacked(f, items[1..])
  }

  function EncodeValue(f: Field, v: Value): bytes
    decreases f, 0
  {
    if f.ltype.LSubmessage? then Blob(EncodeMessage(f.ltype.sub, MessageOf(f.ltype.sub, v)))
    else EncodeScalar(f, v)
  }

  function EncodeItems(f: Field, items: seq<Value>): bytes
    decreases f, 1, |items|
  {
    if items == [] then []
    else TagFor(f) + EncodeValue(f, items[0]) + EncodeItems(f, items[1..])
  }

  /** encode_basic_field for a field that emits; arrays are packed whenever their type allows it. */
  function EncodeSlot(f: Field, slot: Slot): bytes
    decreases f, 2
  {
    match slot
    case SNone => []
    case SRepeated(items) =>
      if Packable(f.ltype) then TagBytes(f.tag, LengthDelimited) + Blob(EncodePacked(f, items))
      else EncodeItems(f, items)
    case SValue(v) => TagFor(f) + EncodeValue(f, v)
    case SOptional(_, v) => TagFor(f) + EncodeValue(f, v)
    case SOne(_, v) => TagFor(f) + EncodeValue(f, v)
  }

  function EncodeFrom(d: Desc, m: Message, i: nat): bytes
    requires i <= |d.fields|
    decreases d, |d.fields| - i
  {
    if i == |d.fields| then []
    else
      var f := d.fields[i];
      var slot := SlotAt(m, f.storage);
      (if Emits(f, slot) then EncodeSlot(f, slot) else []) + EncodeFrom(d, m, i + 1)
  }

  function EncodeMessage(d: Desc, m: Message): bytes
    decreases d, |d.fields| + 1
  {
    EncodeFrom(d, m, 0)
  }

  // ---- When the encoder reports an error ----

  predicate EncodableValue(f: Field, v: Value)
    decreases f, 0
  {
    if f.ltype.LSubmessage? then Encodable(f.ltype.sub, MessageOf(f.ltype.sub, v)) else EncodableScalar(f, v)
  }

  predicate EncodableItems(f: Field, items: seq<Value>)
    decreases f, 1
  {
    forall i | 0 <= i < |items| :: EncodableValue(f, items[i])
  }

  predicate EncodableSlot(f: Field, slot: Slot)
    decreases f, 2
  {
    match slot
    case SNone => true
    case SRepeated(items) => |items| <= f.arraySize && EncodableItems(f, items)
    case SValue(v) => EncodableValue(f, v)
    case SOptional(_, v) => EncodableValue(f, v)
    case SOne(_, v) => EncodableValue(f, v)
  }

  predicate EncodableFrom(d: Desc, m: Message, i: nat)
    requires i <= |d.fields|
    decreases d, 0
  {
    forall j | i <= j < |d.fields| ::
      var f := d.fields[j];
      Emits(f, SlotAt(m, f.storage)) ==> EncodableSlot(f, SlotAt(m, f.storage))
  }

  /** No array is longer than its array_size and no bytes value larger than its buffer. */
  predicate Encodable(d: Desc, m: Message)
    decreases d, 1
  {
    EncodableFrom(d, m, 0)
  }

  // ---- Strictly shaped messages encode without error ----

  lemma {:induction false} StrictIsEncodable(d: Desc, m: Message)
    requires WellFormed(d) && MessageShape(d, m, true)
    ensures Encodable(d, m)
    decreases d
  {
    forall j | 0 <= j < |d.fields|
      ensures Emits(d.fields[j], SlotAt(m, d.fields[j].storage))
          ==> EncodableSlot(d.fields[j], SlotAt(m, d.fields[j].storage))
    {
      var f, slot := d.fields[j], SlotAt(m, d.fields[j].storage);
      assert SlotShape(f, slot, true) && WellFormedField(f);
      if Emits(f, slot) {
        if slot.SRepeated? {
          forall k | 0 <= k < |slot.items| ensures EncodableValue(f, slot.items[k]) {
            StrictValueIsEncodable(f, slot.items[k]);
          }
        } else {
          StrictValueIsEncodable(f, slot.v);
        }
      }
    }
  }

  lemma {:induction false} StrictValueIsEncodable(f: Field, v: Value)
    requires WellFormedField(f) && ValueShape(f, v, true)
    ensures EncodableValue(f, v)
    decreases f
  {
    if f.ltype.LSubmessage? {
      StrictIsEncodable(f.ltype.sub, v.msg);
    }
  }
}
