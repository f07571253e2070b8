/**
 What survives a round trip: the reader's view slot by slot, messages that come back unchanged, and
 encodings that are stable under decoding and encoding again.
 */
module Canonical {
  import opened Basics
  import opened Bits
  import opened Wire
  import opened Descriptor
  import opened Scalars
  import opened Decoder
  import opened Encoder
  import opened RoundTrip
  import Invariants

  // ---- The view, slot by slot ----

  /** d's field i is written and known to e. */
  predicate Shown(e: Desc, d: Desc, m: Message, i: nat)
    requires i < |d.fields|
  {
    Emits(d.fields[i], SlotAt(m, d.fields[i].storage)) && Find(e, d.fields[i].tag).Some?
  }

  /** Two shown fields never share a storage cell: a oneof has one current member. */
  lemma ShownApart(e: Desc, d: Desc, m: Message, i: nat, j: nat)
    requires WellFormed(d) && WellFormed(e) && KeptFrom(e, d)
    requires i < |d.fields| && j < |d.fields| && i != j && Shown(e, d, m, i) && Shown(e, d, m, j)
    ensures Find(e, d.fields[i].tag).value.storage != Find(e, d.fields[j].tag).value.storage
  {
    FoundIsKept(e, d, i);
    FoundIsKept(e, d, j);
    assert d.fields[i].tag != d.fields[j].tag;
  }

  lemma {:induction false} ShownSlot(e: Desc, d: Desc, m: Message, n: nat, i: nat, g: Field)
    requires WellFormed(d) && WellFormed(e) && KeptFrom(e, d)
    requires i < n <= |d.fields| && Shown(e, d, m, i) && g == Find(e, d.fields[i].tag).value
    ensures SlotAt(ViewUpTo(e, d, m, n), g.storage) == ViewSlot(g, d.fields[i], SlotAt(m, d.fields[i].storage))
    decreases n
  {
    if i < n - 1 {
      ShownSlot(e, d, m, n - 1, i, g);
      if Shown(e, d, m, n - 1) {
        ShownApart(e, d, m, i, n - 1);
      }
    }
  }

  predicate NothingShownAt(e: Desc, d: Desc, m: Message, n: nat, k: nat)
    requires n <= |d.fields|
  {
    forall j | 0 <= j < n :: Shown(e, d, m, j) ==> Find(e, d.fields[j].tag).value.storage != k
  }

  lemma {:induction false} HiddenSlot(e: Desc, d: Desc, m: Message, n: nat, k: nat)
    requires n <= |d.fields| && NothingShownAt(e, d, m, n, k)
    ensures SlotAt(ViewUpTo(e, d, m, n), k) == SlotAt(Defaults(e), k)
    decreases n
  {
    if n > 0 {
      HiddenSlot(e, d, m, n - 1, k);
      if Shown(e, d, m, n - 1) {
        assert Find(e, d.fields[n - 1].tag).value.storage != k;
      }
    }
  }

  lemma {:induction false} ViewKeys(e: Desc, d: Desc, m: Message, n: nat)
    requires n <= |d.fields|
    ensures ViewUpTo(e, d, m, n).slots.Keys == Defaults(e).slots.Keys
    decreases n
  {
    if n > 0 {
      ViewKeys(e, d, m, n - 1);
      if Shown(e, d, m, n - 1) {
        var p := FindFrom(e, d.fields[n - 1].tag, 0);
        DefaultsUpToKeys(e, |e.fields|, e.fields[p].storage);
      }
    }
  }

  // ---- Messages that come back unchanged ----

  /** Nothing a round trip would normalise: no text after a terminator, absent values at their default. */
  predicate IsCanonicalValue(f: Field, v: Value)
    decreases f, 0
  {
    if f.ltype.LSubmessage? then v.VMessage? && IsCanonical(f.ltype.sub, v.msg) else NormalScalar(f, v) == v
  }

  predicate IsCanonicalSlot(f: Field, slot: Slot)
    decreases f, 1
  {
    if !Emits(f, slot) then
      f.htype.Oneof? || slot == InitialSlot(f)
    else
      match slot
      case SNone => true
      case SRepeated(items) => forall i | 0 <= i < |items| :: IsCanonicalValue(f, items[i])
      case SValue(v) => IsCanonicalValue(f, v)
      case SOptional(_, v) => IsCanonicalValue(f, v)
      case SOne(_, v) => IsCanonicalValue(f, v)
  }

  predicate IsCanonical(d: Desc, m: Message)
    decreases d, 0
  {
    forall i | 0 <= i < |d.fields| :: IsCanonicalSlot(d.fields[i], SlotAt(m, d.fields[i].storage))
  }

  lemma {:induction false} KeepsFieldSelf(f: Field)
    requires WellFormedField(f)
    ensures KeepsField(f, f)
    decreases f, 0
  {
    if f.ltype.LSubmessage? {
      KeptFromSelf(f.ltype.sub);
    }
  }

  lemma {:induction false} KeptFromSelf(d: Desc)
    requires WellFormed(d)
    ensures KeptFrom(d, d)
    decreases d, 1
  {
    forall i | 0 <= i < |d.fields|
      ensures FindFrom(d, d.fields[i].tag, 0) == i && KeepsField(d.fields[i], d.fields[i])
    {
      FindFromFinds(d, 0, i);
      KeepsFieldSelf(d.fields[i]);
    }
  }

  lemma {:induction false} CanonicalValueView(f: Field, v: Value)
    requires WellFormedField(f) && ValueShape(f, v, false) && IsCanonicalValue(f, v)
    ensures ViewValue(f, f, v) == v
    decreases f, 0
  {
    if f.ltype.LSubmessage? {
      CanonicalView(f.ltype.sub, v.msg);
    }
  }

  lemma {:induction false} CanonicalItemsView(f: Field, items: seq<Value>)
    requires WellFormedField(f)
    requires forall i | 0 <= i < |items| :: ValueShape(f, items[i], false) && IsCanonicalValue(f, items[i])
    ensures ViewItems(f, f, items) == items
    decreases f, 1, |items|
  {
    if items != [] {
      CanonicalItemsView(f, items[..|items| - 1]);
      CanonicalValueView(f, items[|items| - 1]);
    }
  }

  lemma {:induction false} CanonicalSlotView(f: Field, slot: Slot)
    requires WellFormedField(f) && SlotShape(f, slot, false) && IsCanonicalSlot(f, slot) && Emits(f, slot)
    ensures ViewSlot(f, f, slot) == slot
    decreases f, 2
  {
    if slot.SRepeated? {
      CanonicalItemsView(f, slot.items);
    } else {
      CanonicalValueView(f, slot.v);
    }
  }

  /** A written field, when the reader has the whole descriptor. */
  lemma WrittenSlotView(d: Desc, m: Message, i: nat)
    requires WellFormed(d) && i < |d.fields| && Emits(d.fields[i], SlotAt(m, d.fields[i].storage))
    ensures SlotAt(View(d, d, m), d.fields[i].storage)
         == ViewSlot(d.fields[i], d.fields[i], SlotAt(m, d.fields[i].storage))
  {
    KeptFromSelf(d);
    FindField(d, i);
    ShownSlot(d, d, m, |d.fields|, i, d.fields[i]);
  }

  /** A field that is not written, and whose cell no other member of its oneof writes. */
  lemma AbsentSlotView(d: Desc, m: Message, i: nat)
    requires WellFormed(d) && i < |d.fields| && !Emits(d.fields[i], SlotAt(m, d.fields[i].storage))
    requires d.fields[i].htype.Oneof? ==> SlotAt(m, d.fields[i].storage).SNone?
    ensures SlotAt(View(d, d, m), d.fields[i].storage) == InitialSlot(d.fields[i])
  {
    var f := d.fields[i];
    forall j | 0 <= j < |d.fields| && Shown(d, d, m, j)
      ensures Find(d, d.fields[j].tag).value.storage != f.storage
    {
      FindField(d, j);
    }
    HiddenSlot(d, d, m, |d.fields|, f.storage);
    DefaultSlots(d, i);
  }

  /** An occupied oneof cell is owned by the member it names. */
  lemma OneofOwner(d: Desc, m: Message, k: nat) returns (i: nat)
    requires MessageShape(d, m, false) && SlotAt(m, k).SOne?
    ensures i < |d.fields| && d.fields[i].storage == k && Emits(d.fields[i], SlotAt(m, k))
  {
    assert k in m.slots && HasMember(d, k, m.slots[k].which);
    i :| 0 <= i < |d.fields| && d.fields[i].storage == k && d.fields[i].htype.Oneof?
         && d.fields[i].tag == m.slots[k].which;
  }

  lemma {:induction false} CanonicalCell(d: Desc, m: Message, k: nat)
    requires WellFormed(d) && MessageShape(d, m, false) && IsCanonical(d, m) && k in m.slots
    ensures SlotAt(View(d, d, m), k) == SlotAt(m, k)
    decreases d, 1
  {
    var i :| 0 <= i < |d.fields| && d.fields[i].storage == k;
    if SlotAt(m, k).SOne? {
      i := OneofOwner(d, m, k);
    }
    var f := d.fields[i];
    assert WellFormedField(f) && SlotShape(f, SlotAt(m, k), false) && IsCanonicalSlot(f, SlotAt(m, k));
    if Emits(f, SlotAt(m, k)) {
      WrittenSlotView(d, m, i);
      CanonicalSlotView(f, SlotAt(m, k));
    } else {
      AbsentSlotView(d, m, i);
    }
  }

  /** A canonical message is its own view. */
  lemma {:induction false} CanonicalView(d: Desc, m: Message)
    requires WellFormed(d) && MessageShape(d, m, false) && IsCanonical(d, m)
    ensures View(d, d, m) == m
    decreases d, 2
  {
    var v := View(d, d, m);
    ViewKeys(d, d, m, |d.fields|);
    forall k: nat ensures k in v.slots <==> k in m.slots {
      DefaultsUpToKeys(d, |d.fields|, k);
    }
    forall k | k in m.slots ensures v.slots[k] == m.slots[k] {
      CanonicalCell(d, m, k);
      assert SlotAt(v, k) == SlotAt(m, k);
    }
    assert v.slots == m.slots;
  }

  // ---- The round trip of pb_encode and pb_decode ----

  /**
   pb_decode of pb_encode's output, with one descriptor: it succeeds exactly when every string that was
   written leaves room for its terminator, consumes every byte and yields the message up to the
   contents of absent optionals and of char buffers behind their terminator.
   */
  lemma EncodeThenDecode(d: Desc, m: Message)
    requires WellFormed(d) && MessageShape(d, m, false) && Encodable(d, m) && |EncodeMessage(d, m)| < TWO32
    ensures Decode(d, EncodeMessage(d, m)) == if Readable(d, d, m) then Got(View(d, d, m), []) else Fail
    ensures Readable(d, d, m) && IsCanonical(d, m) ==> Decode(d, EncodeMessage(d, m)) == Got(m, [])
  {
    KeptFromSelf(d);
    MessageRoundTrip(d, d, m);
    if IsCanonical(d, m) {
      CanonicalView(d, m);
    }
  }

  lemma {:induction false} TextOf(data: bytes)
    requires 0 !in data
    ensures CString(data) == data
  {
    if data != [] {
      TextOf(data[1..]);
    }
  }

  /** A message of one required string */
  lemma OneString(d: Desc, f: Field, m: Message, data: bytes)
    requires d.fields == [f] && WellFormed(d) && f.htype.Required? && f.ltype.LString? && f.tag == 1
    requires SlotAt(m, f.storage) == SValue(VData(data)) && 0 !in data
    ensures EncodeMessage(d, m) == TagFor(f) + Blob(data) && |TagFor(f)| == 1
    ensures Readable(d, d, m) <==> |data| < f.dataSize
  {
    TextOf(data);
    FindField(d, 0);
    var slot := SlotAt(m, f.storage);
    assert EncodeSlot(f, slot) == TagFor(f) + Blob(data);
    assert EncodeFrom(d, m, 0) == EncodeSlot(f, slot) + EncodeFrom(d, m, 1);
    assert EncodeFrom(d, m, 1) == [];
    assert ReadableValue(f, f, slot.v) <==> |data| < f.dataSize;
    assert ReadableSlot(f, f, slot) <==> ReadableValue(f, f, slot.v);
    assert d.fields[0] == f && (Readable(d, d, m) <==> ReadableField(d, f, slot));
  }

  /**
   The failing side: a required string whose text fills its buffer is encoded without an error, and the decoder rejects
   what was encoded.
   */
  lemma FullBufferIsRejected(data: bytes)
    requires data != [] && 0 !in data && |data| < TWO31
    ensures var d := Desc([Field(1, Required, LString, 0, 0, |data|, 0, 0, None)]);
            var m := Message(map[0 := SValue(VData(data))]);
            WellFormed(d) && MessageShape(d, m, false) && Encodable(d, m) && Decode(d, EncodeMessage(d, m)) == Fail
  {
    var f := Field(1, Required, LString, 0, 0, |data|, 0, 0, None);
    var d, m := Desc([f]), Message(map[0 := SValue(VData(data))]);
    assert d.fields[0] == f && WellFormedField(f) && WellFormed(d);
    OneString(d, f, m, data);
    VarintRoundTrip(|data|, []);
    assert |Blob(data)| <= 10 + |data|;
    assert MessageShape(d, m, false);
    assert Encodable(d, m) by {
      assert EncodableSlot(f, SlotAt(m, f.storage)) && EncodableFrom(d, m, 0);
    }
    EncodeThenDecode(d, m);
  }

  // ---- Strict messages are readable ----

  lemma {:induction false} StrictIsReadable(e: Desc, d: Desc, m: Message)
    requires WellFormed(d) && WellFormed(e) && KeptFrom(e, d) && MessageShape(d, m, true)
    ensures Readable(e, d, m)
    decreases d
  {
    forall j | 0 <= j < |d.fields|
      ensures ReadableField(e, d.fields[j], SlotAt(m, d.fields[j].storage))
    {
      var f, slot := d.fields[j], SlotAt(m, d.fields[j].storage);
      assert SlotShape(f, slot, true) && WellFormedField(f);
      if Shown(e, d, m, j) {
        FoundIsKept(e, d, j);
        var g := Find(e, f.tag).value;
        if slot.SRepeated? {
          forall i | 0 <= i < |slot.items| ensures ReadableValue(g, f, slot.items[i]) {
            StrictValueIsReadable(g, f, slot.items[i]);
          }
        } else {
          StrictValueIsReadable(g, f, slot.v);
        }
      }
    }
  }

  lemma {:induction false} StrictValueIsReadable(g: Field, f: Field, v: Value)
    requires WellFormedField(f) && WellFormedField(g) && KeepsField(g, f) && ValueShape(f, v, true)
    ensures ReadableValue(g, f, v)
    decreases f
  {
    if f.ltype.LSubmessage? {
      StrictIsReadable(g.ltype.sub, f.ltype.sub, v.msg);
    }
  }

  /** Whatever pb_decode accepted encodes again, and decoding that gives its view. */
  lemma DecodedReencodes(d: Desc, s: bytes)
    requires WellFormed(d) && Decode(d, s).Got?
    requires |EncodeMessage(d, Decode(d, s).value)| < TWO32
    ensures Encodable(d, Decode(d, s).value)
    ensures Decode(d, EncodeMessage(d, Decode(d, s).value)) == Got(View(d, d, Decode(d, s).value), [])
  {
    var m := Decode(d, s).value;
    Invariants.DecodedIsStrict(d, s);
    Invariants.Relax(d, m);
    StrictIsEncodable(d, m);
    KeptFromSelf(d);
    StrictIsReadable(d, d, m);
    EncodeThenDecode(d, m);
  }
}
