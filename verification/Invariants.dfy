/**
 What every decode call keeps: the struct stays well shaped, however the input looks. Strings
 keep their terminator, byte arrays their buffer, arrays their array_size, oneofs a member's tag.
 */
module Invariants {
  import opened Basics
  import opened Wire
  import opened Descriptor
  import opened Scalars
  import opened Decoder

  lemma ScalarValueShape(f: Field, s: bytes, strict: bool)
    requires DecodeScalar(f, s).Got?
    ensures ValueShape(f, DecodeScalar(f, s).value, strict)
  {
    DecodedScalarFits(f, s);
  }

  predicate ItemsShape(f: Field, items: seq<Value>, strict: bool) {
    && (strict ==> |items| <= f.arraySize)
    && forall i | 0 <= i < |items| :: ValueShape(f, items[i], strict)
  }

  /** A packed array never grows past array_size, whatever its frame contains. */
  lemma {:induction false} PackedShape(f: Field, items: seq<Value>, s: bytes, strict: bool)
    requires Packable(f.ltype) && ItemsShape(f, items, strict)
    requires DecodePacked(f, items, s).Some?
    ensures ItemsShape(f, DecodePacked(f, items, s).value, strict)
    ensures |DecodePacked(f, items, s).value| <= f.arraySize || DecodePacked(f, items, s).value == items
    decreases |s|
  {
    if s != [] {
      ScalarValueShape(f, s, strict);
      ScalarExtent(f, s);
      var r := DecodeScalar(f, s);
      PackedShape(f, items + [r.value], r.rest, strict);
    }
  }

  lemma ZeroValueShape(f: Field, strict: bool)
    requires WellFormedField(f)
    ensures ValueShape(f, ZeroValue(f), strict)
  {
    if f.ltype.LSubmessage? {
      DefaultsShape(f.ltype.sub);
      if !strict {
        Relax(f.ltype.sub, Defaults(f.ltype.sub));
      }
    }
  }

  /** Strictly shaped messages are well shaped. */
  lemma {:induction false} Relax(d: Desc, m: Message)
    requires MessageShape(d, m, true)
    ensures MessageShape(d, m, false)
    decreases d
  {
    forall i | 0 <= i < |d.fields|
      ensures SlotShape(d.fields[i], SlotAt(m, d.fields[i].storage), false)
    {
      var f, s := d.fields[i], SlotAt(m, d.fields[i].storage);
      assert SlotShape(f, s, true);
      if f.htype.Repeated? {
        forall j | 0 <= j < |s.items| ensures ValueShape(f, s.items[j], false) {
          RelaxValue(f, s.items[j]);
        }
      } else if s.SValue? || s.SOptional? || (s.SOne? && s.which == f.tag) {
        RelaxValue(f, s.v);
      }
    }
  }

  lemma {:induction false} RelaxValue(f: Field, v: Value)
    requires ValueShape(f, v, true)
    ensures ValueShape(f, v, false)
    decreases f
  {
    if f.ltype.LSubmessage? {
      Relax(f.ltype.sub, v.msg);
    }
  }

  lemma {:induction false} ValueKeepsShape(f: Field, current: Value, s: bytes, strict: bool)
    requires WellFormedField(f) && ValueShape(f, current, strict)
    requires DecodeValue(f, current, s).Got?
    ensures ValueShape(f, DecodeValue(f, current, s).value, strict)
    decreases |s|, 0
  {
    if f.ltype.LSubmessage? {
      BlobFrame(s);
      NoInitKeepsShape(f.ltype.sub, current.msg, ReadBlob(s).value, strict);
    } else {
      ScalarValueShape(f, s, strict);
    }
  }

  lemma {:induction false} SlotKeepsShape(f: Field, wt: WireType, slot: Slot, s: bytes, strict: bool)
    requires WellFormedField(f) && SlotShape(f, slot, strict)
    requires DecodeSlot(f, wt, slot, s).Got?
    ensures SlotShape(f, DecodeSlot(f, wt, slot, s).value, strict)
    ensures f.htype.Oneof? ==> DecodeSlot(f, wt, slot, s).value.SOne? && DecodeSlot(f, wt, slot, s).value.which == f.tag
    ensures !f.htype.Oneof? ==> !DecodeSlot(f, wt, slot, s).value.SOne?
    decreases |s|, 1
  {
    if IsPacked(f, wt) {
      PackedShape(f, slot.items, ReadBlob(s).value, strict);
    } else {
      ZeroValueShape(f, strict);
      ValueKeepsShape(f, CurrentValue(f, slot), s, strict);
    }
  }

  lemma FindPosition(d: Desc, tag: nat) returns (p: nat)
    requires Find(d, tag).Some?
    ensures p < |d.fields| && d.fields[p] == Find(d, tag).value && d.fields[p].tag == tag
  {
    p := FindFrom(d, tag, 0);
  }

  /** Storing a well-shaped slot of one field disturbs no other field. */
  lemma PutKeepsShape(d: Desc, m: Message, p: nat, slot: Slot, strict: bool)
    requires WellFormed(d) && MessageShape(d, m, strict) && p < |d.fields|
    requires SlotShape(d.fields[p], slot, strict)
    requires d.fields[p].htype.Oneof? ==> slot.SOne? && slot.which == d.fields[p].tag
    requires !d.fields[p].htype.Oneof? ==> !slot.SOne?
    ensures MessageShape(d, Put(m, d.fields[p].storage, slot), strict)
  {
    var f := d.fields[p];
    var m' := Put(m, f.storage, slot);
    forall i | 0 <= i < |d.fields|
      ensures SlotShape(d.fields[i], SlotAt(m', d.fields[i].storage), strict)
    {
      assert SlotShape(d.fields[i], SlotAt(m, d.fields[i].storage), strict);
      if i != p && d.fields[i].storage == f.storage {
        assert d.fields[i].htype.Oneof? && f.htype.Oneof?;
        assert d.fields[i].tag != f.tag;
      }
    }
    if slot.SOne? {
      assert HasMember(d, f.storage, slot.which);
    }
  }

  lemma {:induction false} LoopKeepsShape(d: Desc, m: Message, seen: set<nat>, s: bytes, strict: bool)
    requires WellFormed(d) && MessageShape(d, m, strict)
    requires DecodeLoop(d, m, seen, s).Accept?
    ensures MessageShape(d, DecodeLoop(d, m, seen, s).m, strict)
    decreases |s|, 2
  {
    var t := ReadTag(s);
    if s != [] && t.Tag? {
      TagExtend(s, []);
      if Find(d, t.tag).None? {
        UnknownFacts(d, t.tag, t.wt, t.rest, []);
        LoopKeepsShape(d, m, seen, SkipUnknown(d, t.tag, t.wt, t.rest).rest, strict);
      } else {
        var p := FindPosition(d, t.tag);
        var f := d.fields[p];
        assert SlotShape(f, SlotAt(m, f.storage), strict);
        SlotKeepsShape(f, t.wt, SlotAt(m, f.storage), t.rest, strict);
        SkipRecordFacts(f, t.wt, t.rest, []);
        var r := DecodeSlot(f, t.wt, SlotAt(m, f.storage), t.rest);
        PutKeepsShape(d, m, p, r.value, strict);
        LoopKeepsShape(d, Put(m, f.storage, r.value), seen + {t.tag}, r.rest, strict);
      }
    }
  }

  /** pb_decode_noinit keeps a struct well shaped on every input it accepts. */
  lemma {:induction false} NoInitKeepsShape(d: Desc, m: Message, s: bytes, strict: bool)
    requires WellFormed(d) && MessageShape(d, m, strict)
    requires DecodeNoInit(d, m, s).Got?
    ensures MessageShape(d, DecodeNoInit(d, m, s).value, strict)
    decreases |s|, 3
  {
    LoopKeepsShape(d, m, {}, s, strict);
  }

  /** Every byte string pb_decode accepts leaves a struct within all its buffers and array bounds. */
  lemma DecodedIsStrict(d: Desc, s: bytes)
    requires WellFormed(d) && Decode(d, s).Got?
    ensures MessageShape(d, Decode(d, s).value, true)
  {
    DefaultsShape(d);
    NoInitKeepsShape(d, Defaults(d), s, true);
  }
}
