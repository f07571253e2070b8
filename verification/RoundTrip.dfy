/**
 Decoding what the encoder wrote, with the same descriptor or with one that keeps only some of its
 fields, at any nesting level.
 */
module RoundTrip {
  import opened Basics
  import opened Bits
  import opened Wire
  import opened Descriptor
  import opened Scalars
  import opened Decoder
  import opened Encoder
  import Varint32

  // ---- A descriptor with some fields removed ----

  /** Field g is field f, with fields possibly removed inside a submessage. */
  predicate KeepsField(g: Field, f: Field)
    decreases g, 0
  {
    && g.tag == f.tag && g.htype == f.htype && g.dataSize == f.dataSize && g.arraySize == f.arraySize
    && g.storage == f.storage && g.initial == f.initial
    && IsSingular(g) == IsSingular(f)
    && if g.ltype.LSubmessage? then f.ltype.LSubmessage? && KeptFrom(g.ltype.sub, f.ltype.sub) else g.ltype == f.ltype
  }

  /** e is d without some of its fields. */
  predicate KeptFrom(e: Desc, d: Desc)
    decreases e, 1
  {
    forall i | 0 <= i < |e.fields| ::
      var p := FindFrom(d, e.fields[i].tag, 0);
      p < |d.fields| && KeepsField(e.fields[i], d.fields[p])
  }

  // ---- What a reader with descriptor e sees of a message of descriptor d ----

  function ViewValue(g: Field, f: Field, v: Value): Value
    decreases f, 0
  {
    if f.ltype.LSubmessage? && g.ltype.LSubmessage? then
      VMessage(View(g.ltype.sub, f.ltype.sub, MessageOf(f.ltype.sub, v)))
    else NormalScalar(f, v)
  }

  function ViewItems(g: Field, f: Field, items: seq<Value>): (r: seq<Value>)
    ensures |r| == |items|
    decreases f, 1, |items|
  {
    if items == [] then []
    else ViewItems(g, f, items[..|items| - 1]) + [ViewValue(g, f, items[|items| - 1])]
  }

  /** The slot of a field that was written. */
  function ViewSlot(g: Field, f: Field, slot: Slot): Slot
    decreases f, 2
  {
    match slot
    case SNone => SNone
    case SRepeated(items) => SRepeated(ViewItems(g, f, items))
    case SValue(v) => SValue(ViewValue(g, f, v))
    case SOptional(_, v) => SOptional(true, ViewValue(g, f, v))
    case SOne(_, v) => SOne(f.tag, ViewValue(g, f, v))
  }

  /** The defaults, overwritten by the first n fields of d that are present in m and known to e. */
  function ViewUpTo(e: Desc, d: Desc, m: Message, n: nat): Message
    requires n <= |d.fields|
    decreases d, n
  {
    if n == 0 then Defaults(e)
    else
      var f := d.fields[n - 1];
      var slot := SlotAt(m, f.storage);
      var before := ViewUpTo(e, d, m, n - 1);
      if Emits(f, slot) && Find(e, f.tag).Some? then
        Put(before, Find(e, f.tag).value.storage, ViewSlot(Find(e, f.tag).value, f, slot))
      else before
  }

  function View(e: Desc, d: Desc, m: Message): Message
    decreases d, |d.fields| + 1
  {
    ViewUpTo(e, d, m, |d.fields|)
  }

  // ---- When the reader accepts it ----

  predicate ReadableValue(g: Field, f: Field, v: Value)
    decreases f, 0
  {
    if f.ltype.LSubmessage? && g.ltype.LSubmessage? then
      Readable(g.ltype.sub, f.ltype.sub, MessageOf(f.ltype.sub, v))
    else Terminated(f, v)
  }

  predicate ReadableItems(g: Field, f: Field, items: seq<Value>)
    decreases f, 1
  {
    forall i | 0 <= i < |items| :: ReadableValue(g, f, items[i])
  }

  predicate ReadableSlot(g: Field, f: Field, slot: Slot)
    decreases f, 2
  {
    match slot
    case SNone => true
    case SRepeated(items) => ReadableItems(g, f, items)
    case SValue(v) => ReadableValue(g, f, v)
    case SOptional(_, v) => ReadableValue(g, f, v)
    case SOne(_, v) => ReadableValue(g, f, v)
  }

  predicate ReadableField(e: Desc, f: Field, slot: Slot)
    decreases f, 3
  {
    Emits(f, slot) && Find(e, f.tag).Some? ==> ReadableSlot(Find(e, f.tag).value, f, slot)
  }

  /** Every string the reader meets leaves room for its terminator. */
  predicate ReadableFrom(e: Desc, d: Desc, m: Message, i: nat)
    requires i <= |d.fields|
    decreases d, 0
  {
    forall j | i <= j < |d.fields| :: ReadableField(e, d.fields[j], SlotAt(m, d.fields[j].storage))
  }

  predicate Readable(e: Desc, d: Desc, m: Message)
    decreases d, 1
  {
    ReadableFrom(e, d, m, 0)
  }

  /** The tag of d's field i, if it is written and e knows it. */
  function WrittenHere(e: Desc, d: Desc, m: Message, i: nat): set<nat>
    requires i < |d.fields|
  {
    var f := d.fields[i];
    if Emits(f, SlotAt(m, f.storage)) && Find(e, f.tag).Some? then {f.tag} else {}
  }

  /** Tags of e's fields found in what d's fields from i on write. */
  function WrittenTags(e: Desc, d: Desc, m: Message, i: nat): set<nat>
    requires i <= |d.fields|
    decreases |d.fields| - i
  {
    if i == |d.fields| then {} else WrittenHere(e, d, m, i) + WrittenTags(e, d, m, i + 1)
  }

  // ---- One record ----

  lemma TagRoundTrip(tag: nat, wt: WireType, t: bytes)
    requires tag < TAG_LIMIT && 0 < tag && WireTypeOf(WireCode(wt)) == wt && WireCode(wt) < 8
    ensures TagBytes(tag, wt) + t != []
    ensures ReadTag(TagBytes(tag, wt) + t) == Tag(tag, wt, t)
  {
    Varint32.AcceptsCanonical(8 * tag + WireCode(wt), t);
  }

  lemma KnownTag(f: Field, t: bytes)
    requires WellFormedField(f)
    ensures TagFor(f) + t != []
    ensures ReadTag(TagFor(f) + t) == Tag(f.tag, WireTypeFor(f.ltype), t)
  {
    TagRoundTrip(f.tag, WireTypeFor(f.ltype), t);
  }

  /** One iteration of the loop on a record of a known field. */
  lemma LoopKnown(d: Desc, m: Message, seen: set<nat>, s: bytes, f: Field, wt: WireType, rest: bytes)
    requires s != [] && ReadTag(s) == Tag(f.tag, wt, rest) && Find(d, f.tag) == Some(f)
    ensures DecodeLoop(d, m, seen, s)
         == match DecodeSlot(f, wt, SlotAt(m, f.storage), rest)
            case Fail => Reject
            case Got(slot, rest') => DecodeLoop(d, Put(m, f.storage, slot), seen + {f.tag}, rest')
  {
  }

  lemma LoopUnknown(d: Desc, m: Message, seen: set<nat>, s: bytes, tag: nat, wt: WireType, rest: bytes, t: bytes)
    requires s != [] && ReadTag(s) == Tag(tag, wt, rest) && Find(d, tag).None? && tag > 0
    requires SkipField(wt, rest) == Got((), t)
    ensures DecodeLoop(d, m, seen, s) == DecodeLoop(d, m, seen, t)
  {
  }

  // ---- Skipping what was written ----

  lemma EncodedScalarSkips(f: Field, v: Value, t: bytes)
    requires WellFormedField(f) && ScalarShape(f, v) && |EncodeScalar(f, v)| < TWO32
    ensures SkipLType(f.ltype, EncodeScalar(f, v) + t) == Got((), t)
  {
    var s := EncodeScalar(f, v) + t;
    if f.ltype.LBool? || f.ltype.LVarint? || f.ltype.LUVarint? || f.ltype.LSVarint? {
      var w := if f.ltype.LBool? then (if v.b then 1 else 0)
               else if f.ltype.LSVarint? then ZigZag(v.i) % TWO64 else v.i % TWO64;
      VarintRoundTrip(w, t);
      VarintFrame(s);
    } else if f.ltype.LFixed32? || f.ltype.LFixed64? {
      assert s[|EncodeScalar(f, v)|..] == t;
    } else {
      BlobRoundTrip(if f.ltype.LString? then CString(v.data) else v.data, t);
      BlobFrame(s);
    }
  }

  lemma EncodedValueSkips(f: Field, v: Value, t: bytes)
    requires WellFormedField(f) && ValueShape(f, v, false) && |EncodeValue(f, v)| < TWO32
    ensures SkipLType(f.ltype, EncodeValue(f, v) + t) == Got((), t)
  {
    if f.ltype.LSubmessage? {
      var b := EncodeMessage(f.ltype.sub, v.msg);
      BlobRoundTrip(b, t);
      BlobFrame(Blob(b) + t);
    } else {
      EncodedScalarSkips(f, v, t);
    }
  }

  // ---- Decoding values that were written ----

  lemma {:induction false} PackedRoundTrip(g: Field, f: Field, done: seq<Value>, items: seq<Value>)
    requires WellFormedField(f) && KeepsField(g, f) && Packable(f.ltype)
    requires forall i | 0 <= i < |items| :: ScalarShape(f, items[i]) && EncodableScalar(f, items[i])
    requires |EncodePacked(f, items)| < TWO32 && |done| + |items| <= f.arraySize
    ensures DecodePacked(g, done, EncodePacked(f, items)) == Some(done + items)
    decreases |items|
  {
    if items == [] {
      assert done + items == done;
    } else {
      var v, t := items[0], EncodePacked(f, items[1..]);
      ScalarRoundTrip(f, v, t);
      EncodedScalarNonEmpty(f, v);
      assert DecodeScalar(g, EncodeScalar(f, v) + t) == Got(v, t);
      PackedRoundTrip(g, f, done + [v], items[1..]);
      assert done + [v] + items[1..] == done + items;
    }
  }

  /** The scalars of a packable field come back unchanged. */
  lemma {:induction false} ViewPackable(g: Field, f: Field, items: seq<Value>)
    requires Packable(f.ltype)
    ensures ViewItems(g, f, items) == items
    decreases |items|
  {
    if items != [] {
      ViewPackable(g, f, items[..|items| - 1]);
    }
  }

  lemma PackableReadable(g: Field, f: Field, items: seq<Value>)
    requires Packable(f.ltype)
    ensures ReadableItems(g, f, items)
  {
  }

  /** A value written by f, read by g into a destination that holds defaults. */
  lemma {:induction false} ValueRoundTrip(g: Field, f: Field, current: Value, v: Value, t: bytes)
    requires WellFormedField(g) && WellFormedField(f) && KeepsField(g, f)
    requires ValueShape(f, v, false) && EncodableValue(f, v) && |EncodeValue(f, v)| < TWO32
    requires g.ltype.LSubmessage? ==> MessageOf(g.ltype.sub, current) == Defaults(g.ltype.sub)
    ensures DecodeValue(g, current, EncodeValue(f, v) + t)
         == if ReadableValue(g, f, v) then Got(ViewValue(g, f, v), t) else Fail
    decreases f, 0
  {
    if f.ltype.LSubmessage? {
      var b := EncodeMessage(f.ltype.sub, v.msg);
      BlobRoundTrip(b, t);
      MessageRoundTrip(g.ltype.sub, f.ltype.sub, v.msg);
    } else {
      ScalarRoundTrip(f, v, t);
    }
  }

  /** Finding f's tag in a descriptor that keeps only fields of d finds f itself. */
  lemma FoundIsKept(e: Desc, d: Desc, i: nat)
    requires WellFormed(d) && WellFormed(e) && KeptFrom(e, d) && i < |d.fields|
    requires Find(e, d.fields[i].tag).Some?
    ensures KeepsField(Find(e, d.fields[i].tag).value, d.fields[i])
    ensures WellFormedField(Find(e, d.fields[i].tag).value)
    ensures Find(e, d.fields[i].tag).value.tag == d.fields[i].tag
  {
    var p := FindFrom(e, d.fields[i].tag, 0);
    FindFromFinds(d, 0, i);
    assert WellFormedField(e.fields[p]);
  }

  // ---- One field ----

  /** A destination that has not been written yet holds the defaults of its submessage. */
  lemma InitialDestination(g: Field)
    requires g.ltype.LSubmessage?
    ensures MessageOf(g.ltype.sub, CurrentValue(g, InitialSlot(g))) == Defaults(g.ltype.sub)
  {
    assert ZeroValue(g) == VMessage(Defaults(g.ltype.sub));
  }

  lemma {:induction false} SlotFieldRoundTrip(e: Desc, m: Message, seen: set<nat>, g: Field, f: Field, slot: Slot,
                                              t: bytes)
    requires WellFormedField(f) && Emits(f, slot) && !f.htype.Repeated?
    requires SlotShape(f, slot, false) && EncodableSlot(f, slot) && |EncodeSlot(f, slot)| < TWO32
    requires Find(e, f.tag) == Some(g) && WellFormedField(g) && KeepsField(g, f)
    requires g.storage in m.slots && m.slots[g.storage] == InitialSlot(g)
    ensures DecodeLoop(e, m, seen, EncodeSlot(f, slot) + t)
         == if ReadableSlot(g, f, slot) then DecodeLoop(e, Put(m, g.storage, ViewSlot(g, f, slot)), seen + {f.tag}, t)
            else Reject
    decreases f, 1
  {
    var s := EncodeSlot(f, slot) + t;
    var rest := EncodeValue(f, slot.v) + t;
    assert s == TagFor(f) + rest;
    KnownTag(f, rest);
    LoopKnown(e, m, seen, s, g, WireTypeFor(f.ltype), rest);
    if g.ltype.LSubmessage? {
      InitialDestination(g);
    }
    ValueRoundTrip(g, f, CurrentValue(g, InitialSlot(g)), slot.v, t);
  }

  lemma ItemSlot(g: Field, f: Field, done: seq<Value>, v: Value, t: bytes)
    requires WellFormedField(g) && WellFormedField(f) && KeepsField(g, f)
    requires f.htype.Repeated? && !Packable(f.ltype) && |done| < f.arraySize
    requires ValueShape(f, v, false) && EncodableValue(f, v) && |EncodeValue(f, v)| < TWO32
    ensures DecodeSlot(g, WireTypeFor(f.ltype), SRepeated(done), EncodeValue(f, v) + t)
         == if ReadableValue(g, f, v) then Got(SRepeated(done + [ViewValue(g, f, v)]), t) else Fail
    decreases f, 1
  {
    ValueRoundTrip(g, f, ZeroValue(g), v, t);
  }

  /** One more element of an unpacked array. */
  lemma {:induction false} ItemRoundTrip(e: Desc, m: Message, seen: set<nat>, g: Field, f: Field, done: seq<Value>,
                                         v: Value, t: bytes)
    requires WellFormedField(f) && f.htype.Repeated? && !Packable(f.ltype) && |done| < f.arraySize
    requires ValueShape(f, v, false) && EncodableValue(f, v) && |EncodeValue(f, v)| < TWO32
    requires Find(e, f.tag) == Some(g) && WellFormedField(g) && KeepsField(g, f)
    requires SlotAt(m, g.storage) == SRepeated(done)
    ensures DecodeLoop(e, m, seen, TagFor(f) + EncodeValue(f, v) + t)
         == if ReadableValue(g, f, v)
            then DecodeLoop(e, Put(m, g.storage, SRepeated(done + [ViewValue(g, f, v)])), seen + {f.tag}, t)
            else Reject
    decreases f, 2
  {
    var rest := EncodeValue(f, v) + t;
    var s := TagFor(f) + EncodeValue(f, v) + t;
    assert s == TagFor(f) + rest;
    KnownTag(f, rest);
    LoopKnown(e, m, seen, s, g, WireTypeFor(f.ltype), rest);
    ItemSlot(g, f, done, v, t);
  }

  lemma ReadableCons(g: Field, f: Field, v: Value, items: seq<Value>)
    ensures ReadableItems(g, f, [v] + items) <==> ReadableValue(g, f, v) && ReadableItems(g, f, items)
  {
    assert forall i | 0 <= i < |items| :: ([v] + items)[i + 1] == items[i];
    assert ([v] + items)[0] == v;
    if ReadableItems(g, f, [v] + items) {
      forall i | 0 <= i < |items| ensures ReadableValue(g, f, items[i]) {
        assert ReadableValue(g, f, ([v] + items)[i + 1]);
      }
    }
  }

  /** The struct after the first k elements of an unpacked array. */
  function AfterItems(base: Message, g: Field, f: Field, items: seq<Value>, k: nat): Message
    requires k <= |items|
  {
    Put(base, g.storage, SRepeated(ViewItems(g, f, items[..k])))
  }

  predicate ItemHolds(e: Desc, base: Message, seen: set<nat>, g: Field, f: Field, items: seq<Value>, k: nat, t: bytes)
    requires k < |items|
  {
    DecodeLoop(e, AfterItems(base, g, f, items, k), seen, EncodeItems(f, items[k..]) + t)
    == if ReadableValue(g, f, items[k])
       then DecodeLoop(e, AfterItems(base, g, f, items, k + 1), seen + {f.tag}, EncodeItems(f, items[k + 1..]) + t)
       else Reject
  }

  lemma {:induction false} ItemStep(e: Desc, base: Message, seen: set<nat>, g: Field, f: Field, items: seq<Value>,
                                    k: nat, t: bytes)
    requires WellFormedField(f) && f.htype.Repeated? && !Packable(f.ltype)
    requires k < |items| <= f.arraySize
    requires ValueShape(f, items[k], false) && EncodableValue(f, items[k])
    requires |EncodeItems(f, items[k..])| < TWO32
    requires Find(e, f.tag) == Some(g) && WellFormedField(g) && KeepsField(g, f)
    ensures ItemHolds(e, base, seen, g, f, items, k, t)
    decreases f, 3
  {
    var v := items[k];
    var tail := EncodeItems(f, items[k + 1..]) + t;
    assert items[k..][0] == v && items[k..][1..] == items[k + 1..];
    assert EncodeItems(f, items[k..]) + t == TagFor(f) + EncodeValue(f, v) + tail;
    var m := AfterItems(base, g, f, items, k);
    var done := ViewItems(g, f, items[..k]);
    ItemRoundTrip(e, m, seen, g, f, done, v, tail);
    assert items[..k + 1][..k] == items[..k];
    PutTwice(base, g.storage, SRepeated(done), SRepeated(done + [ViewValue(g, f, v)]));
  }

  lemma PutTwice(m: Message, k: nat, a: Slot, b: Slot)
    ensures Put(Put(m, k, a), k, b) == Put(m, k, b)
  {
    assert m.slots[k := a][k := b] == m.slots[k := b];
  }

  /** Chaining the elements of an unpacked array from k on. */
  lemma {:induction false} ItemsChain(e: Desc, base: Message, seen: set<nat>, g: Field, f: Field, items: seq<Value>,
                                      k: nat, t: bytes)
    requires k <= |items|
    requires forall j, x | k <= j < |items| :: ItemHolds(e, base, x, g, f, items, j, t)
    requires k == |items| ==> f.tag in seen
    ensures DecodeLoop(e, AfterItems(base, g, f, items, k), seen, EncodeItems(f, items[k..]) + t)
         == if ReadableItems(g, f, items[k..])
            then DecodeLoop(e, AfterItems(base, g, f, items, |items|), seen + {f.tag}, t)
            else Reject
    decreases |items| - k
  {
    if k == |items| {
      assert EncodeItems(f, items[k..]) + t == t;
      assert seen + {f.tag} == seen;
    } else {
      assert ItemHolds(e, base, seen, g, f, items, k, t);
      ItemsChain(e, base, seen + {f.tag}, g, f, items, k + 1, t);
      assert seen + {f.tag} + {f.tag} == seen + {f.tag};
      assert items[k..] == [items[k]] + items[k + 1..];
      ReadableCons(g, f, items[k], items[k + 1..]);
    }
  }

  lemma {:induction false} ItemsSuffix(f: Field, items: seq<Value>, k: nat)
    requires k <= |items|
    ensures |EncodeItems(f, items[k..])| <= |EncodeItems(f, items)|
    decreases k
  {
    if k > 0 {
      assert items[1..][k - 1..] == items[k..];
      ItemsSuffix(f, items[1..], k - 1);
    }
  }

  lemma {:induction false} ItemsRoundTrip(e: Desc, m: Message, seen: set<nat>, g: Field, f: Field, items: seq<Value>,
                                          t: bytes)
    requires WellFormedField(f) && f.htype.Repeated? && !Packable(f.ltype)
    requires items != [] && |items| <= f.arraySize
    requires forall i | 0 <= i < |items| :: ValueShape(f, items[i], false) && EncodableValue(f, items[i])
    requires |EncodeItems(f, items)| < TWO32
    requires Find(e, f.tag) == Some(g) && WellFormedField(g) && KeepsField(g, f)
    requires g.storage in m.slots && m.slots[g.storage] == SRepeated([])
    ensures DecodeLoop(e, m, seen, EncodeItems(f, items) + t)
         == if ReadableItems(g, f, items)
            then DecodeLoop(e, Put(m, g.storage, SRepeated(ViewItems(g, f, items))), seen + {f.tag}, t)
            else Reject
    decreases f, 4
  {
    forall j, x | 0 <= j < |items| ensures ItemHolds(e, m, x, g, f, items, j, t) {
      ItemsSuffix(f, items, j);
      ItemStep(e, m, x, g, f, items, j, t);
    }
    ItemsChain(e, m, seen, g, f, items, 0, t);
    assert items[0..] == items && items[..|items|] == items && items[..0] == [];
    assert m.slots[g.storage := SRepeated([])] == m.slots;
  }

  lemma PackedFieldRoundTrip(e: Desc, m: Message, seen: set<nat>, g: Field, f: Field, items: seq<Value>, t: bytes)
    requires WellFormedField(f) && f.htype.Repeated? && Packable(f.ltype)
    requires SlotShape(f, SRepeated(items), false) && EncodableSlot(f, SRepeated(items))
    requires |EncodeSlot(f, SRepeated(items))| < TWO32
    requires Find(e, f.tag) == Some(g) && WellFormedField(g) && KeepsField(g, f)
    requires SlotAt(m, g.storage) == SRepeated([])
    ensures DecodeLoop(e, m, seen, EncodeSlot(f, SRepeated(items)) + t)
         == DecodeLoop(e, Put(m, g.storage, SRepeated(items)), seen + {f.tag}, t)
  {
    var frame := EncodePacked(f, items);
    var s := EncodeSlot(f, SRepeated(items)) + t;
    var rest := Blob(frame) + t;
    assert s == TagBytes(f.tag, LengthDelimited) + rest;
    TagRoundTrip(f.tag, LengthDelimited, rest);
    LoopKnown(e, m, seen, s, g, LengthDelimited, rest);
    BlobRoundTrip(frame, t);
    PackedRoundTrip(g, f, [], items);
    assert [] + items == items;
  }

  predicate SkipsValue(e: Desc, m: Message, seen: set<nat>, f: Field, v: Value, t: bytes) {
    DecodeLoop(e, m, seen, TagFor(f) + EncodeValue(f, v) + t) == DecodeLoop(e, m, seen, t)
  }

  lemma UnknownValue(e: Desc, m: Message, seen: set<nat>, f: Field, v: Value, t: bytes)
    requires WellFormedField(f) && Find(e, f.tag).None?
    requires ValueShape(f, v, false) && |EncodeValue(f, v)| < TWO32
    ensures SkipsValue(e, m, seen, f, v, t)
  {
    var rest := EncodeValue(f, v) + t;
    var s := TagFor(f) + EncodeValue(f, v) + t;
    assert s == TagFor(f) + rest;
    KnownTag(f, rest);
    EncodedValueSkips(f, v, t);
    LoopUnknown(e, m, seen, s, f.tag, WireTypeFor(f.ltype), rest, t);
  }

  /** The records of a field the reader does not know are skipped. */
  lemma {:induction false} UnknownItems(e: Desc, m: Message, seen: set<nat>, f: Field, items: seq<Value>, t: bytes)
    requires forall i, x | 0 <= i < |items| :: SkipsValue(e, m, seen, f, items[i], x)
    ensures DecodeLoop(e, m, seen, EncodeItems(f, items) + t) == DecodeLoop(e, m, seen, t)
    decreases |items|
  {
    if items == [] {
      assert EncodeItems(f, items) + t == t;
    } else {
      var more := EncodeItems(f, items[1..]) + t;
      assert SkipsValue(e, m, seen, f, items[0], more);
      assert EncodeItems(f, items) + t == TagFor(f) + EncodeValue(f, items[0]) + more;
      forall i, x | 0 <= i < |items[1..]| ensures SkipsValue(e, m, seen, f, items[1..][i], x) {
        assert SkipsValue(e, m, seen, f, items[i + 1], x);
      }
      UnknownItems(e, m, seen, f, items[1..], t);
    }
  }

  lemma {:induction false} ItemBound(f: Field, items: seq<Value>, i: nat)
    requires i < |items|
    ensures |EncodeValue(f, items[i])| <= |EncodeItems(f, items)|
  {
    if i > 0 {
      ItemBound(f, items[1..], i - 1);
    }
  }

  lemma UnknownField(e: Desc, m: Message, seen: set<nat>, f: Field, slot: Slot, t: bytes)
    requires WellFormedField(f) && Find(e, f.tag).None? && Emits(f, slot)
    requires SlotShape(f, slot, false) && |EncodeSlot(f, slot)| < TWO32
    ensures DecodeLoop(e, m, seen, EncodeSlot(f, slot) + t) == DecodeLoop(e, m, seen, t)
  {
    if slot.SRepeated? && Packable(f.ltype) {
      var rest := Blob(EncodePacked(f, slot.items)) + t;
      var s := EncodeSlot(f, slot) + t;
      assert s == TagBytes(f.tag, LengthDelimited) + rest;
      TagRoundTrip(f.tag, LengthDelimited, rest);
      BlobRoundTrip(EncodePacked(f, slot.items), t);
      BlobFrame(rest);
      LoopUnknown(e, m, seen, s, f.tag, LengthDelimited, rest, t);
    } else if slot.SRepeated? {
      forall i, x | 0 <= i < |slot.items| ensures SkipsValue(e, m, seen, f, slot.items[i], x) {
        ItemBound(f, slot.items, i);
        UnknownValue(e, m, seen, f, slot.items[i], x);
      }
      UnknownItems(e, m, seen, f, slot.items, t);
    } else {
      UnknownValue(e, m, seen, f, slot.v, t);
      assert SkipsValue(e, m, seen, f, slot.v, t);
    }
  }

  lemma {:induction false} KnownField(e: Desc, m: Message, seen: set<nat>, g: Field, f: Field, slot: Slot, t: bytes)
    requires WellFormedField(f) && Emits(f, slot)
    requires SlotShape(f, slot, false) && EncodableSlot(f, slot) && |EncodeSlot(f, slot)| < TWO32
    requires Find(e, f.tag) == Some(g) && WellFormedField(g) && KeepsField(g, f)
    requires g.storage in m.slots && m.slots[g.storage] == InitialSlot(g)
    ensures DecodeLoop(e, m, seen, EncodeSlot(f, slot) + t)
         == if ReadableSlot(g, f, slot) then DecodeLoop(e, Put(m, g.storage, ViewSlot(g, f, slot)), seen + {f.tag}, t)
            else Reject
    decreases f, 5
  {
    if !f.htype.Repeated? {
      SlotFieldRoundTrip(e, m, seen, g, f, slot, t);
    } else if Packable(f.ltype) {
      PackedFieldRoundTrip(e, m, seen, g, f, slot.items, t);
      ViewPackable(g, f, slot.items);
      PackableReadable(g, f, slot.items);
    } else {
      ItemsRoundTrip(e, m, seen, g, f, slot.items, t);
    }
  }

  // ---- All fields ----

  /** A storage cell stays at its default until its own field comes. */
  lemma {:induction false} Untouched(e: Desc, d: Desc, m: Message, n: nat, i: nat)
    requires WellFormed(d) && WellFormed(e) && KeptFrom(e, d)
    requires n <= i < |d.fields| && Emits(d.fields[i], SlotAt(m, d.fields[i].storage))
    requires Find(e, d.fields[i].tag).Some?
    ensures var g := Find(e, d.fields[i].tag).value;
            g.storage in ViewUpTo(e, d, m, n).slots && ViewUpTo(e, d, m, n).slots[g.storage] == InitialSlot(g)
    decreases n
  {
    var g := Find(e, d.fields[i].tag).value;
    if n == 0 {
      DefaultsUpToSlots(e, |e.fields|, FindFrom(e, d.fields[i].tag, 0));
    } else {
      Untouched(e, d, m, n - 1, i);
      var f := d.fields[n - 1];
      if Find(e, f.tag).Some? {
        FoundIsKept(e, d, n - 1);
        FoundIsKept(e, d, i);
        if f.storage == d.fields[i].storage {
          assert f.htype.Oneof? && d.fields[i].htype.Oneof?;
          assert f.tag != d.fields[i].tag;
        }
      }
    }
  }

  /** Decoding field i, starting from what the fields before it left. */
  predicate StepHolds(e: Desc, d: Desc, m: Message, seen: set<nat>, i: nat)
    requires i < |d.fields|
  {
    DecodeLoop(e, ViewUpTo(e, d, m, i), seen, EncodeFrom(d, m, i))
    == if ReadableField(e, d.fields[i], SlotAt(m, d.fields[i].storage))
       then DecodeLoop(e, ViewUpTo(e, d, m, i + 1), seen + WrittenHere(e, d, m, i), EncodeFrom(d, m, i + 1))
       else Reject
  }

  lemma FieldAbsent(e: Desc, d: Desc, m: Message, seen: set<nat>, i: nat)
    requires i < |d.fields| && !Emits(d.fields[i], SlotAt(m, d.fields[i].storage))
    ensures StepHolds(e, d, m, seen, i)
  {
    assert seen + {} == seen;
    assert [] + EncodeFrom(d, m, i + 1) == EncodeFrom(d, m, i + 1);
  }

  lemma FieldSkipped(e: Desc, d: Desc, m: Message, seen: set<nat>, i: nat)
    requires i < |d.fields| && Emits(d.fields[i], SlotAt(m, d.fields[i].storage))
    requires WellFormedField(d.fields[i]) && Find(e, d.fields[i].tag).None?
    requires SlotShape(d.fields[i], SlotAt(m, d.fields[i].storage), false) && |EncodeFrom(d, m, i)| < TWO32
    ensures StepHolds(e, d, m, seen, i)
  {
    assert seen + {} == seen;
    UnknownField(e, ViewUpTo(e, d, m, i), seen, d.fields[i], SlotAt(m, d.fields[i].storage), EncodeFrom(d, m, i + 1));
  }

  lemma {:induction false} FieldRead(e: Desc, d: Desc, m: Message, seen: set<nat>, i: nat, g: Field, here: Message)
    requires i < |d.fields| && Emits(d.fields[i], SlotAt(m, d.fields[i].storage))
    requires WellFormedField(d.fields[i]) && Find(e, d.fields[i].tag) == Some(g)
    requires WellFormedField(g) && KeepsField(g, d.fields[i])
    requires SlotShape(d.fields[i], SlotAt(m, d.fields[i].storage), false) && |EncodeFrom(d, m, i)| < TWO32
    requires EncodableSlot(d.fields[i], SlotAt(m, d.fields[i].storage))
    requires here == ViewUpTo(e, d, m, i) && g.storage in here.slots && here.slots[g.storage] == InitialSlot(g)
    ensures StepHolds(e, d, m, seen, i)
    decreases d, |d.fields| - i, 0
  {
    var f, slot, rest := d.fields[i], SlotAt(m, d.fields[i].storage), EncodeFrom(d, m, i + 1);
    assert EncodeFrom(d, m, i) == EncodeSlot(f, slot) + rest;
    KnownField(e, here, seen, g, f, slot, rest);
  }

  lemma {:induction false} FieldStep(e: Desc, d: Desc, m: Message, seen: set<nat>, i: nat)
    requires WellFormed(d) && WellFormed(e) && KeptFrom(e, d) && i < |d.fields|
    requires SlotShape(d.fields[i], SlotAt(m, d.fields[i].storage), false)
    requires EncodableFrom(d, m, i) && |EncodeFrom(d, m, i)| < TWO32
    ensures StepHolds(e, d, m, seen, i)
    decreases d, |d.fields| - i, 1
  {
    var f := d.fields[i];
    if !Emits(f, SlotAt(m, f.storage)) {
      FieldAbsent(e, d, m, seen, i);
    } else if Find(e, f.tag).None? {
      FieldSkipped(e, d, m, seen, i);
    } else {
      Untouched(e, d, m, i, i);
      FoundIsKept(e, d, i);
      FieldRead(e, d, m, seen, i, Find(e, f.tag).value, ViewUpTo(e, d, m, i));
    }
  }

  lemma {:induction false} RestOfFields(d: Desc, m: Message, i: nat, j: nat)
    requires i <= j <= |d.fields| && EncodableFrom(d, m, i)
    ensures EncodableFrom(d, m, j) && |EncodeFrom(d, m, j)| <= |EncodeFrom(d, m, i)|
    decreases j - i
  {
    if i < j {
      RestOfFields(d, m, i + 1, j);
    }
  }

  /** What decoding the fields from i on should give. */
  function Expected(e: Desc, d: Desc, m: Message, seen: set<nat>, i: nat): Outcome
    requires i <= |d.fields|
  {
    if ReadableFrom(e, d, m, i) then Accept(View(e, d, m), seen + WrittenTags(e, d, m, i), true, []) else Reject
  }

  lemma ExpectedStep(e: Desc, d: Desc, m: Message, seen: set<nat>, i: nat)
    requires i < |d.fields|
    ensures Expected(e, d, m, seen, i)
         == if ReadableField(e, d.fields[i], SlotAt(m, d.fields[i].storage))
            then Expected(e, d, m, seen + WrittenHere(e, d, m, i), i + 1)
            else Reject
  {
    var seen' := seen + WrittenHere(e, d, m, i);
    assert seen' + WrittenTags(e, d, m, i + 1) == seen + WrittenTags(e, d, m, i);
  }

  lemma ExpectedEnd(e: Desc, d: Desc, m: Message, seen: set<nat>)
    ensures DecodeLoop(e, ViewUpTo(e, d, m, |d.fields|), seen, EncodeFrom(d, m, |d.fields|))
         == Expected(e, d, m, seen, |d.fields|)
  {
    assert seen + {} == seen;
  }

  lemma ShapeAt(d: Desc, m: Message, i: nat)
    requires MessageShape(d, m, false) && i < |d.fields|
    ensures SlotShape(d.fields[i], SlotAt(m, d.fields[i].storage), false)
  {
  }

  /** Chaining the steps of all fields from i on. */
  lemma {:induction false} FieldsRoundTrip(e: Desc, d: Desc, m: Message, seen: set<nat>, i: nat)
    requires i <= |d.fields|
    requires forall k, x | i <= k < |d.fields| :: StepHolds(e, d, m, x, k)
    ensures DecodeLoop(e, ViewUpTo(e, d, m, i), seen, EncodeFrom(d, m, i)) == Expected(e, d, m, seen, i)
    decreases |d.fields| - i
  {
    if i == |d.fields| {
      ExpectedEnd(e, d, m, seen);
    } else {
      assert StepHolds(e, d, m, seen, i);
      ExpectedStep(e, d, m, seen, i);
      FieldsRoundTrip(e, d, m, seen + WrittenHere(e, d, m, i), i + 1);
    }
  }

  lemma {:induction false} WrittenHas(e: Desc, d: Desc, m: Message, i: nat, j: nat)
    requires i <= j < |d.fields| && Emits(d.fields[j], SlotAt(m, d.fields[j].storage))
    requires Find(e, d.fields[j].tag).Some?
    ensures d.fields[j].tag in WrittenTags(e, d, m, i)
    decreases j - i
  {
    if i < j {
      WrittenHas(e, d, m, i + 1, j);
    }
  }

  /** Required fields are always written, so the reader's required-field check passes. */
  lemma RequiredAreWritten(e: Desc, d: Desc, m: Message)
    requires WellFormed(d) && WellFormed(e) && KeptFrom(e, d) && MessageShape(d, m, false)
    ensures RequiredSeen(e, WrittenTags(e, d, m, 0))
  {
    forall i | 0 <= i < |e.fields| && e.fields[i].htype.Required?
      ensures e.fields[i].tag in WrittenTags(e, d, m, 0)
    {
      var j := FindFrom(d, e.fields[i].tag, 0);
      assert SlotShape(d.fields[j], SlotAt(m, d.fields[j].storage), false);
      FindField(e, i);
      WrittenHas(e, d, m, 0, j);
    }
  }

  /**
   Decoding an encoded message with a descriptor that keeps some of its fields: it succeeds exactly
   when every string the reader meets leaves room for its terminator; then it consumes every byte and
   gives the reader's view of the message.
   */
  lemma {:induction false} MessageRoundTrip(e: Desc, d: Desc, m: Message)
    requires WellFormed(d) && WellFormed(e) && KeptFrom(e, d)
    requires MessageShape(d, m, false) && Encodable(d, m) && |EncodeMessage(d, m)| < TWO32
    ensures Decode(e, EncodeMessage(d, m)) == if Readable(e, d, m) then Got(View(e, d, m), []) else Fail
    decreases d, |d.fields| + 1
  {
    forall k, seen | 0 <= k < |d.fields| ensures StepHolds(e, d, m, seen, k) {
      ShapeAt(d, m, k);
      RestOfFields(d, m, 0, k);
      FieldStep(e, d, m, seen, k);
    }
    FieldsRoundTrip(e, d, m, {}, 0);
    RequiredAreWritten(e, d, m);
    assert {} + WrittenTags(e, d, m, 0) == WrittenTags(e, d, m, 0);
  }
}
