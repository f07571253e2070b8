/**
 What a message keeps through pb_encode and pb_decode, said about its contents only: whether and how a field was
 written plays no part. Then the other side, which singular fields the encoder may leave out.
 */
module Preservation {
  import opened Basics
  import opened Bits
  import opened Wire
  import opened Descriptor
  import opened Scalars
  import opened Decoder
  import opened Encoder
  import opened RoundTrip
  import opened Canonical

  // ---- The same contents ----

  /** The text of a char buffer: everything before its first zero byte. */
  predicate IsText(data: bytes, text: bytes) {
    text <= data && 0 !in text && (|text| < |data| ==> data[|text|] == 0)
  }

  lemma {:induction false} CStringIsText(data: bytes)
    ensures IsText(data, CString(data))
  {
    if data != [] && data[0] != 0 {
      CStringIsText(data[1..]);
      assert CString(data) == [data[0]] + CString(data[1..]);
      assert data == [data[0]] + data[1..];
    }
  }

  /**
   What field g of the reader holds for field f of the writer: equal numbers and byte arrays, char buffers with the same
   text, submessages with the same contents as far as the reader knows them.
   */
  predicate SameValue(g: Field, f: Field, v: Value, w: Value)
    decreases f, 0
  {
    if f.ltype.LSubmessage? then
      v.VMessage? && w.VMessage? && g.ltype.LSubmessage? && SameMessage(g.ltype.sub, f.ltype.sub, v.msg, w.msg)
    else if f.ltype.LString? then v.VData? && w.VData? && IsText(v.data, w.data)
    else w == v
  }

  /** The field holds the same; an optional field that was absent is absent, at its default. */
  predicate SameSlot(g: Field, f: Field, s: Slot, t: Slot)
    decreases f, 1
  {
    match f.htype
    case Required => s.SValue? && t.SValue? && SameValue(g, f, s.v, t.v)
    case Optional =>
      if f.sizeOffset == 0 then s.SValue? && t.SValue? && SameValue(g, f, s.v, t.v)
      else
        && s.SOptional? && t.SOptional? && t.has == s.has
        && if s.has then SameValue(g, f, s.v, t.v) else t == InitialSlot(g)
    case Repeated =>
      && s.SRepeated? && t.SRepeated? && |t.items| == |s.items|
      && forall i | 0 <= i < |s.items| :: SameValue(g, f, s.items[i], t.items[i])
    case Oneof =>
      && (s.SNone? ==> t.SNone?)
      && (s.SOne? && s.which == f.tag ==> t.SOne? && t.which == f.tag && SameValue(g, f, s.v, t.v))
  }

  /** Field i of the writer, if the reader knows it */
  predicate SameField(e: Desc, d: Desc, m: Message, m': Message, i: nat)
    requires i < |d.fields|
    decreases d, 0
  {
    var f := d.fields[i];
    Find(e, f.tag).Some? ==>
      SameSlot(Find(e, f.tag).value, f, SlotAt(m, f.storage), SlotAt(m', Find(e, f.tag).value.storage))
  }

  /** m', a struct of the reader's descriptor e, has what m has in the fields that e knows. */
  predicate SameMessage(e: Desc, d: Desc, m: Message, m': Message)
    decreases d, 1
  {
    m'.slots.Keys == Defaults(e).slots.Keys && forall i | 0 <= i < |d.fields| :: SameField(e, d, m, m', i)
  }

  // ---- The reader's view has them ----

  lemma {:induction false} ViewValueSame(g: Field, f: Field, v: Value)
    requires WellFormedField(f) && WellFormedField(g) && KeepsField(g, f) && ValueShape(f, v, false)
    ensures SameValue(g, f, v, ViewValue(g, f, v))
    decreases f, 0
  {
    if f.ltype.LSubmessage? {
      ViewSame(g.ltype.sub, f.ltype.sub, v.msg);
    } else if f.ltype.LString? {
      CStringIsText(v.data);
    }
  }

  lemma {:induction false} ViewItemsSame(g: Field, f: Field, items: seq<Value>)
    requires WellFormedField(f) && WellFormedField(g) && KeepsField(g, f)
    requires forall i | 0 <= i < |items| :: ValueShape(f, items[i], false)
    ensures forall i | 0 <= i < |items| :: SameValue(g, f, items[i], ViewItems(g, f, items)[i])
    decreases f, 1, |items|
  {
    if items != [] {
      var n := |items| - 1;
      ViewItemsSame(g, f, items[..n]);
      ViewValueSame(g, f, items[n]);
      forall i | 0 <= i < |items| ensures SameValue(g, f, items[i], ViewItems(g, f, items)[i]) {
        if i < n {
          assert items[..n][i] == items[i];
        }
      }
    }
  }

  lemma {:induction false} WrittenSame(g: Field, f: Field, slot: Slot)
    requires WellFormedField(f) && WellFormedField(g) && KeepsField(g, f)
    requires SlotShape(f, slot, false) && Emits(f, slot)
    ensures SameSlot(g, f, slot, ViewSlot(g, f, slot))
    decreases f, 2
  {
    if slot.SRepeated? {
      ViewItemsSame(g, f, slot.items);
    } else {
      ViewValueSame(g, f, slot.v);
    }
  }

  /** What counts as zero has the contents of the default. */
  lemma {:induction false} ZeroSame(g: Field, f: Field, v: Value)
    requires WellFormedField(f) && WellFormedField(g) && KeepsField(g, f)
    requires ValueShape(f, v, false) && IsZeroValue(f, v)
    ensures SameValue(g, f, v, ZeroValue(g))
    decreases f, 0
  {
    if f.ltype.LSubmessage? {
      ZeroMessageSame(g.ltype.sub, f.ltype.sub, v.msg);
    } else if f.ltype.LString? {
      CStringIsText(v.data);
    } else if f.ltype.LFixedBytes? {
      assert v.data == ZeroBytes(f.dataSize);
    }
  }

  lemma {:induction false} ZeroMessageSame(e: Desc, d: Desc, m: Message)
    requires WellFormed(d) && WellFormed(e) && KeptFrom(e, d) && MessageShape(d, m, false) && IsZeroMessage(d, m)
    ensures SameMessage(e, d, m, Defaults(e))
    decreases d, 1
  {
    forall i | 0 <= i < |d.fields| ensures SameField(e, d, m, Defaults(e), i) {
      var f, slot := d.fields[i], SlotAt(m, d.fields[i].storage);
      assert WellFormedField(f) && SlotShape(f, slot, false) && IsZeroSlot(f, slot);
      if Find(e, f.tag).Some? {
        FoundIsKept(e, d, i);
        DefaultSlots(e, FindFrom(e, f.tag, 0));
        if IsSingular(f) {
          ZeroSame(Find(e, f.tag).value, f, slot.v);
        }
      }
    }
  }

  /** A field that is not written, in a cell that no other member of its oneof occupies, is left at its default. */
  lemma NotShown(e: Desc, d: Desc, m: Message, i: nat, g: Field)
    requires WellFormed(d) && WellFormed(e) && KeptFrom(e, d) && MessageShape(d, m, false)
    requires i < |d.fields| && Find(e, d.fields[i].tag) == Some(g)
    requires !Emits(d.fields[i], SlotAt(m, d.fields[i].storage)) && !SlotAt(m, d.fields[i].storage).SOne?
    ensures SlotAt(View(e, d, m), g.storage) == InitialSlot(g)
  {
    FoundIsKept(e, d, i);
    forall j | 0 <= j < |d.fields| && Shown(e, d, m, j)
      ensures Find(e, d.fields[j].tag).value.storage != g.storage
    {
      FoundIsKept(e, d, j);
    }
    HiddenSlot(e, d, m, |d.fields|, g.storage);
    DefaultSlots(e, FindFrom(e, d.fields[i].tag, 0));
  }

  lemma {:induction false} ViewFieldSame(e: Desc, d: Desc, m: Message, i: nat)
    requires WellFormed(d) && WellFormed(e) && KeptFrom(e, d) && MessageShape(d, m, false) && i < |d.fields|
    ensures SameField(e, d, m, View(e, d, m), i)
    decreases d, 2
  {
    var f, slot := d.fields[i], SlotAt(m, d.fields[i].storage);
    assert WellFormedField(f) && SlotShape(f, slot, false);
    if Find(e, f.tag).Some? {
      var g := Find(e, f.tag).value;
      FoundIsKept(e, d, i);
      if Emits(f, slot) {
        ShownSlot(e, d, m, |d.fields|, i, g);
        WrittenSame(g, f, slot);
      } else if !slot.SOne? {
        NotShown(e, d, m, i, g);
        if IsSingular(f) {
          ZeroSame(g, f, slot.v);
        }
      }
    }
  }

  lemma {:induction false} ViewSame(e: Desc, d: Desc, m: Message)
    requires WellFormed(d) && WellFormed(e) && KeptFrom(e, d) && MessageShape(d, m, false)
    ensures SameMessage(e, d, m, View(e, d, m))
    decreases d, 3
  {
    ViewKeys(e, d, m, |d.fields|);
    forall i | 0 <= i < |d.fields| ensures SameField(e, d, m, View(e, d, m), i) {
      ViewFieldSame(e, d, m, i);
    }
  }

  /**
   Whatever is accepted after pb_encode has the contents of the message, in every field the reader knows: no set field
   is lost, none appears.
   */
  lemma RoundTripKeepsContents(e: Desc, d: Desc, m: Message)
    requires WellFormed(d) && WellFormed(e) && KeptFrom(e, d)
    requires MessageShape(d, m, false) && Encodable(d, m) && |EncodeMessage(d, m)| < TWO32
    requires Decode(e, EncodeMessage(d, m)).Got?
    ensures SameMessage(e, d, m, Decode(e, EncodeMessage(d, m)).value) && Decode(e, EncodeMessage(d, m)).rest == []
  {
    MessageRoundTrip(e, d, m);
    ViewSame(e, d, m);
  }

  lemma SameScalar(f: Field, v: Value, t: Slot)
    requires f.htype.Optional? && f.sizeOffset == 0 && !f.ltype.LSubmessage? && SameSlot(f, f, SValue(v), t)
    ensures t == SValue(NormalScalar(f, v))
  {
    if f.ltype.LString? {
      CStringIsText(v.data);
      OneText(v.data, t.v.data, CString(v.data));
    }
  }

  lemma FieldIsSame(d: Desc, m: Message, m': Message, i: nat)
    requires WellFormed(d) && i < |d.fields| && SameMessage(d, d, m, m')
    ensures SameSlot(d.fields[i], d.fields[i], SlotAt(m, d.fields[i].storage), SlotAt(m', d.fields[i].storage))
  {
    FindField(d, i);
    assert SameField(d, d, m, m', i);
  }

  /** In particular a singular scalar comes back with its value, zero or not. */
  lemma SingularSurvives(d: Desc, m: Message, i: nat, v: Value)
    requires WellFormed(d) && MessageShape(d, m, false) && Encodable(d, m) && |EncodeMessage(d, m)| < TWO32
    requires Decode(d, EncodeMessage(d, m)).Got?
    requires i < |d.fields| && d.fields[i].htype.Optional? && d.fields[i].sizeOffset == 0
    requires !d.fields[i].ltype.LSubmessage? && SlotAt(m, d.fields[i].storage) == SValue(v)
    ensures SlotAt(Decode(d, EncodeMessage(d, m)).value, d.fields[i].storage) == SValue(NormalScalar(d.fields[i], v))
  {
    var m' := Decode(d, EncodeMessage(d, m)).value;
    KeptFromSelf(d);
    RoundTripKeepsContents(d, d, m);
    FieldIsSame(d, m, m', i);
    SameScalar(d.fields[i], v, SlotAt(m', d.fields[i].storage));
  }

  lemma OneText(data: bytes, a: bytes, b: bytes)
    requires IsText(data, a) && IsText(data, b)
    ensures a == b
  {
    assert forall i | 0 <= i < |a| :: a[i] == data[i] != 0;
    assert forall i | 0 <= i < |b| :: b[i] == data[i] != 0;
    assert |a| == |b|;
  }

  // ---- What is left out ----

  /** The values that a singular scalar field leaves out: false, 0, no bytes, no text, and bytes of fixed length 0. */
  predicate IsBlank(f: Field, v: Value) {
    match f.ltype
    case LBool => v == VBool(false)
    case LBytes => v == VData([])
    case LString => v.VData? && (v.data == [] || v.data[0] == 0)
    case LFixedBytes => f.dataSize == 0
    case _ => v == VInt(0)
  }

  lemma {:induction false} NothingEmitted(d: Desc, m: Message, i: nat)
    requires i <= |d.fields|
    ensures EncodeFrom(d, m, i) == []
       <==> forall j | i <= j < |d.fields| :: !Emits(d.fields[j], SlotAt(m, d.fields[j].storage))
    decreases |d.fields| - i
  {
    if i < |d.fields| {
      NothingEmitted(d, m, i + 1);
      var f, slot := d.fields[i], SlotAt(m, d.fields[i].storage);
      if Emits(f, slot) {
        SlotNotEmpty(f, slot);
      }
    }
  }

  lemma SlotNotEmpty(f: Field, slot: Slot)
    requires Emits(f, slot)
    ensures EncodeSlot(f, slot) != []
  {
    if slot.SRepeated? && !Packable(f.ltype) {
      assert |EncodeItems(f, slot.items)| >= |TagFor(f)|;
    }
  }

  /** A field that counts as zero is one that writes nothing, except for the members of a oneof, which share a cell. */
  lemma ZeroFieldIsSilent(d: Desc, m: Message)
    requires MessageShape(d, m, false)
    ensures IsZeroMessage(d, m)
       <==> forall i | 0 <= i < |d.fields| :: !Emits(d.fields[i], SlotAt(m, d.fields[i].storage))
  {
    forall i | 0 <= i < |d.fields|
      ensures var f, slot := d.fields[i], SlotAt(m, d.fields[i].storage);
              (IsZeroSlot(f, slot) ==> !Emits(f, slot)) && (!slot.SOne? && !Emits(f, slot) ==> IsZeroSlot(f, slot))
    {
      assert SlotShape(d.fields[i], SlotAt(m, d.fields[i].storage), false);
    }
    if i :| 0 <= i < |d.fields| && SlotAt(m, d.fields[i].storage).SOne? {
      var j := OneofOwner(d, m, d.fields[i].storage);
      assert SlotShape(d.fields[i], SlotAt(m, d.fields[i].storage), false) && d.fields[i].htype.Oneof?;
      assert !IsZeroSlot(d.fields[i], SlotAt(m, d.fields[i].storage));
    }
  }

  /** The recursive zero check of a submessage decides whether its encoding would be empty. */
  lemma ZeroMeansEmpty(d: Desc, m: Message)
    requires MessageShape(d, m, false)
    ensures IsZeroMessage(d, m) <==> EncodeMessage(d, m) == []
  {
    ZeroFieldIsSilent(d, m);
    NothingEmitted(d, m, 0);
  }

  /** A message of one singular field encodes to nothing exactly for blank scalars and for submessages that do. */
  lemma SingularIsSilent(f: Field, v: Value)
    requires WellFormedField(f) && f.htype.Optional? && f.sizeOffset == 0 && ValueShape(f, v, false)
    ensures var empty := EncodeMessage(Desc([f]), Message(map[f.storage := SValue(v)])) == [];
            if f.ltype.LSubmessage? then empty <==> EncodeMessage(f.ltype.sub, v.msg) == []
            else empty <==> IsBlank(f, v)
  {
    var d, m := Desc([f]), Message(map[f.storage := SValue(v)]);
    NothingEmitted(d, m, 0);
    assert d.fields[0] == f && SlotAt(m, f.storage) == SValue(v);
    if f.ltype.LSubmessage? {
      ZeroMeansEmpty(f.ltype.sub, v.msg);
    } else if f.ltype.LBool? {
      assert v.VBool?;
    }
  }
}
