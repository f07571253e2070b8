/**
 The encoder depends only on what the decoder shows: encoding, decoding and encoding again gives the
 same bytes, so one round trip brings every message to a fixed point.
 */
module Stability {
  import opened Basics
  import opened Bits
  import opened Wire
  import opened Descriptor
  import opened Scalars
  import opened Decoder
  import opened Encoder
  import opened RoundTrip
  import opened Canonical

  lemma {:induction false} CStringIdempotent(data: bytes)
    ensures CString(CString(data)) == CString(data)
  {
    if data != [] && data[0] != 0 {
      CStringIdempotent(data[1..]);
      assert CString(data)[1..] == CString(data[1..]);
    }
  }

  /** If any value of a field counts as zero, its default does. */
  lemma {:induction false} DefaultIsZero(f: Field, v: Value)
    requires WellFormedField(f) && ValueShape(f, v, false) && IsZeroValue(f, v)
    ensures IsZeroValue(f, ZeroValue(f))
    decreases f, 0
  {
    if f.ltype.LSubmessage? {
      var sub := f.ltype.sub;
      assert IsZeroMessage(sub, v.msg);
      forall i | 0 <= i < |sub.fields|
        ensures IsZeroSlot(sub.fields[i], SlotAt(Defaults(sub), sub.fields[i].storage))
      {
        var h := sub.fields[i];
        assert WellFormedField(h) && SlotShape(h, SlotAt(v.msg, h.storage), false);
        assert IsZeroSlot(h, SlotAt(v.msg, h.storage));
        DefaultSlots(sub, i);
        if IsSingular(h) {
          DefaultIsZero(h, SlotAt(v.msg, h.storage).v);
        }
      }
      assert IsZeroMessage(sub, Defaults(sub));
    }
  }

  lemma {:induction false} ViewZeroValue(f: Field, v: Value)
    requires WellFormedField(f) && ValueShape(f, v, false)
    ensures IsZeroValue(f, ViewValue(f, f, v)) <==> IsZeroValue(f, v)
    decreases f, 0
  {
    if f.ltype.LSubmessage? {
      ViewZeroMessage(f.ltype.sub, v.msg);
    } else if f.ltype.LString? {
      CStringIdempotent(v.data);
    }
  }

  /** The view of a written field is written again. */
  lemma {:induction false} ViewEmits(f: Field, slot: Slot)
    requires WellFormedField(f) && SlotShape(f, slot, false) && Emits(f, slot)
    ensures Emits(f, ViewSlot(f, f, slot))
    ensures !IsZeroSlot(f, slot) && !IsZeroSlot(f, ViewSlot(f, f, slot))
    decreases f, 1
  {
    if IsSingular(f) {
      ViewZeroValue(f, slot.v);
    }
  }

  /** What the view holds for a field that is not written is not written either. */
  lemma AbsentStays(d: Desc, m: Message, i: nat)
    requires WellFormed(d) && MessageShape(d, m, false) && i < |d.fields|
    requires !Emits(d.fields[i], SlotAt(m, d.fields[i].storage))
    ensures !Emits(d.fields[i], SlotAt(View(d, d, m), d.fields[i].storage))
  {
    var f := d.fields[i];
    var slot := SlotAt(m, f.storage);
    assert WellFormedField(f) && SlotShape(f, slot, false);
    if slot.SOne? {
      var j := OneofOwner(d, m, f.storage);
      WrittenSlotView(d, m, j);
    } else {
      AbsentSlotView(d, m, i);
      if IsSingular(f) {
        DefaultIsZero(f, slot.v);
      }
    }
  }

  lemma {:induction false} ViewZeroField(d: Desc, m: Message, i: nat)
    requires WellFormed(d) && MessageShape(d, m, false) && i < |d.fields|
    ensures IsZeroSlot(d.fields[i], SlotAt(View(d, d, m), d.fields[i].storage))
       <==> IsZeroSlot(d.fields[i], SlotAt(m, d.fields[i].storage))
    decreases d, 0
  {
    var f := d.fields[i];
    var slot := SlotAt(m, f.storage);
    assert WellFormedField(f) && SlotShape(f, slot, false);
    if Emits(f, slot) {
      WrittenSlotView(d, m, i);
      ViewEmits(f, slot);
    } else if slot.SOne? {
      var j := OneofOwner(d, m, f.storage);
      WrittenSlotView(d, m, j);
    } else {
      AbsentSlotView(d, m, i);
      if IsSingular(f) {
        DefaultIsZero(f, slot.v);
      }
    }
  }

  lemma {:induction false} ViewZeroMessage(d: Desc, m: Message)
    requires WellFormed(d) && MessageShape(d, m, false)
    ensures IsZeroMessage(d, View(d, d, m)) <==> IsZeroMessage(d, m)
    decreases d, 1
  {
    forall i | 0 <= i < |d.fields|
      ensures IsZeroSlot(d.fields[i], SlotAt(View(d, d, m), d.fields[i].storage))
         <==> IsZeroSlot(d.fields[i], SlotAt(m, d.fields[i].storage))
    {
      ViewZeroField(d, m, i);
    }
  }

  // ---- Encoding the view ----

  lemma {:induction false} EncodeViewValue(f: Field, v: Value)
    requires WellFormedField(f) && ValueShape(f, v, false)
    ensures EncodeValue(f, ViewValue(f, f, v)) == EncodeValue(f, v)
    decreases f, 0
  {
    if f.ltype.LSubmessage? {
      EncodeView(f.ltype.sub, v.msg);
    } else if f.ltype.LString? {
      CStringIdempotent(v.data);
    }
  }

  lemma {:induction false} EncodeItemsSnoc(f: Field, items: seq<Value>, v: Value)
    ensures EncodeItems(f, items + [v]) == EncodeItems(f, items) + (TagFor(f) + EncodeValue(f, v))
  {
    if items == [] {
      assert [] + [v] == [v] && [v][1..] == [];
    } else {
      assert (items + [v])[1..] == items[1..] + [v];
      EncodeItemsSnoc(f, items[1..], v);
    }
  }

  lemma {:induction false} EncodeViewItems(f: Field, items: seq<Value>)
    requires WellFormedField(f) && forall i | 0 <= i < |items| :: ValueShape(f, items[i], false)
    ensures EncodeItems(f, ViewItems(f, f, items)) == EncodeItems(f, items)
    decreases f, 1, |items|
  {
    if items != [] {
      var front, v := items[..|items| - 1], items[|items| - 1];
      EncodeViewItems(f, front);
      EncodeViewValue(f, v);
      EncodeItemsSnoc(f, front, v);
      EncodeItemsSnoc(f, ViewItems(f, f, front), ViewValue(f, f, v));
      assert items == front + [v];
    }
  }

  lemma {:induction false} EncodeViewSlot(f: Field, slot: Slot)
    requires WellFormedField(f) && SlotShape(f, slot, false) && Emits(f, slot)
    ensures EncodeSlot(f, ViewSlot(f, f, slot)) == EncodeSlot(f, slot)
    decreases f, 2
  {
    if slot.SRepeated? {
      if Packable(f.ltype) {
        ViewPackable(f, f, slot.items);
      } else {
        EncodeViewItems(f, slot.items);
      }
    } else {
      EncodeViewValue(f, slot.v);
    }
  }

  lemma {:induction false} EncodeViewField(d: Desc, m: Message, i: nat)
    requires WellFormed(d) && MessageShape(d, m, false) && i < |d.fields|
    ensures var f := d.fields[i];
            Emits(f, SlotAt(View(d, d, m), f.storage)) == Emits(f, SlotAt(m, f.storage))
    ensures var f := d.fields[i];
            Emits(f, SlotAt(m, f.storage)) ==>
            EncodeSlot(f, SlotAt(View(d, d, m), f.storage)) == EncodeSlot(f, SlotAt(m, f.storage))
    decreases d, 0
  {
    var f := d.fields[i];
    var slot := SlotAt(m, f.storage);
    assert WellFormedField(f) && SlotShape(f, slot, false);
    if Emits(f, slot) {
      WrittenSlotView(d, m, i);
      ViewEmits(f, slot);
      EncodeViewSlot(f, slot);
    } else {
      AbsentStays(d, m, i);
    }
  }

  lemma {:induction false} EncodeViewFrom(d: Desc, m: Message, i: nat)
    requires WellFormed(d) && MessageShape(d, m, false) && i <= |d.fields|
    ensures EncodeFrom(d, View(d, d, m), i) == EncodeFrom(d, m, i)
    decreases d, 1, |d.fields| - i
  {
    if i < |d.fields| {
      EncodeViewField(d, m, i);
      EncodeViewFrom(d, m, i + 1);
    }
  }

  /** The view of a message has the message's own encoding. */
  lemma {:induction false} EncodeView(d: Desc, m: Message)
    requires WellFormed(d) && MessageShape(d, m, false)
    ensures EncodeMessage(d, View(d, d, m)) == EncodeMessage(d, m)
    decreases d, 2
  {
    EncodeViewFrom(d, m, 0);
  }

  /** Encode, decode, encode: the second encoding is the first, byte for byte. */
  lemma EncodingIsStable(d: Desc, m: Message)
    requires WellFormed(d) && MessageShape(d, m, false) && Encodable(d, m) && |EncodeMessage(d, m)| < TWO32
    requires Decode(d, EncodeMessage(d, m)).Got?
    ensures EncodeMessage(d, Decode(d, EncodeMessage(d, m)).value) == EncodeMessage(d, m)
  {
    EncodeThenDecode(d, m);
    EncodeView(d, m);
  }
}
