/**
 pb_encode and its helpers as methods on an output stream. A call either appends exactly the bytes that
 Encoder assigns to the message, or fails because the message is not encodable or does not fit; the size
 pass and the write pass of a submessage therefore always agree.
 */
module MessageEncoder {
  import opened Basics
  import opened Bits
  import opened Wire
  import opened Descriptor
  import opened Scalars
  import opened Decoder
  import opened Encoder
  import opened OutputStream
  import opened FieldEncoders
  import opened FieldIter
  import MessageDecoder
  import RoundTrip

  // ---- pb_check_proto3_default_value ----

  /** pb_check_proto3_default_value */
  method CheckDefaultValue(f: Field, slot: Slot) returns (zero: bool)
    requires WellFormedField(f) && SlotShape(f, slot, false)
    ensures zero <==> IsZeroSlot(f, slot)
    decreases f, 0
  {
    if f.htype.Required? {
      return false;
    } else if f.htype.Repeated? {
      return slot.items == [];
    } else if f.htype.Oneof? {
      return slot.SNone?;
    } else if f.sizeOffset != 0 {
      return !slot.has;
    }
    var v := slot.v;
    if f.ltype.LBytes? {
      zero := |v.data| == 0;
    } else if f.ltype.LString? {
      zero := v.data == [] || v.data[0] == 0;
    } else if f.ltype.LFixedBytes? {
      zero := f.dataSize == 0;
    } else if f.ltype.LSubmessage? {
      zero := CheckDefaultMessage(f.ltype.sub, v.msg);
    } else {
      zero := if f.ltype.LBool? then !v.b else IntOf(v) == 0;
    }
  }

  /** Its loop over the fields of a submessage */
  method CheckDefaultMessage(d: Desc, m: Message) returns (zero: bool)
    requires WellFormed(d) && MessageShape(d, m, false)
    ensures zero <==> IsZeroMessage(d, m)
    decreases d, 1
  {
    MessageDecoder.WellFormedTerminates(d);
    var iter := new FieldIterator(d.fields, 0);
    var more := iter.Begin();
    if !more {
      return true;
    }
    ghost var n := 0;
    while more
      invariant iter.Valid() && fresh(iter) && iter.fields == d.fields
      invariant n <= |d.fields| && (more ==> iter.pos == n < |d.fields|) && (!more ==> n == |d.fields|)
      invariant forall i | 0 <= i < n :: IsZeroSlot(d.fields[i], SlotAt(m, d.fields[i].storage))
      decreases |d.fields| - n, more
    {
      var f := d.fields[iter.pos];
      zero := CheckDefaultValue(f, SlotAt(m, f.storage));
      if !zero {
        return false;
      }
      more := iter.Next();
      n := n + 1;
    }
    return true;
  }

  // ---- Arrays ----

  lemma ScalarSize(f: Field, v: Value)
    requires Packable(f.ltype) && ScalarShape(f, v)
    ensures |EncodeScalar(f, v)| <= 10
    ensures f.ltype.LFixed32? ==> |EncodeScalar(f, v)| == 4
    ensures f.ltype.LFixed64? ==> |EncodeScalar(f, v)| == 8
  {
    if f.ltype.LBool? {
      VarintRoundTrip(if v == VBool(true) then 1 else 0, []);
    } else if f.ltype.LSVarint? {
      VarintRoundTrip(ZigZag(v.i) % TWO64, []);
    } else if f.ltype.LVarint? || f.ltype.LUVarint? {
      VarintRoundTrip(v.i % TWO64, []);
    }
  }

  lemma {:induction false} PackedSize(f: Field, items: seq<Value>)
    requires Packable(f.ltype) && forall i | 0 <= i < |items| :: ScalarShape(f, items[i])
    ensures |EncodePacked(f, items)| <= 10 * |items|
    ensures f.ltype.LFixed32? ==> |EncodePacked(f, items)| == 4 * |items|
    ensures f.ltype.LFixed64? ==> |EncodePacked(f, items)| == 8 * |items|
  {
    if items != [] {
      ScalarSize(f, items[0]);
      PackedSize(f, items[1..]);
    }
  }

  // ---- What values encode to, unless the encoder reports an error ----

  function ValueEncoding(f: Field, v: Value): Option<bytes> {
    if EncodableValue(f, v) then Some(EncodeValue(f, v)) else None
  }

  function ItemsEncoding(f: Field, items: seq<Value>): Option<bytes> {
    if EncodableItems(f, items) then Some(EncodeItems(f, items)) else None
  }

  function SlotEncoding(f: Field, slot: Slot): Option<bytes> {
    if !Emits(f, slot) then Some([])
    else if EncodableSlot(f, slot) then Some(EncodeSlot(f, slot))
    else None
  }

  function EncodingFrom(d: Desc, m: Message, n: nat): Option<bytes>
    requires n <= |d.fields|
  {
    if EncodableFrom(d, m, n) then Some(EncodeFrom(d, m, n)) else None
  }

  function Encoding(d: Desc, m: Message): Option<bytes> {
    if Encodable(d, m) then Some(EncodeMessage(d, m)) else None
  }

  lemma EncodingWhole(d: Desc, m: Message)
    ensures EncodingFrom(d, m, 0) == Encoding(d, m)
    ensures EncodingFrom(d, m, |d.fields|) == Some([])
  {
  }

  /** The encoding of a message is that of its fields one after the other. */
  lemma EncodingStep(d: Desc, m: Message, n: nat)
    requires n < |d.fields|
    ensures EncodingFrom(d, m, n)
         == match SlotEncoding(d.fields[n], SlotAt(m, d.fields[n].storage))
            case None => None
            case Some(b) => Prepend(b, EncodingFrom(d, m, n + 1))
  {
    var f := d.fields[n];
    assert EncodableFrom(d, m, n) ==> (Emits(f, SlotAt(m, f.storage)) ==> EncodableSlot(f, SlotAt(m, f.storage)));
  }

  lemma ItemsStep(f: Field, items: seq<Value>)
    requires items != []
    ensures ItemsEncoding(f, items)
         == match ValueEncoding(f, items[0])
            case None => None
            case Some(b) => Prepend(TagFor(f) + b, ItemsEncoding(f, items[1..]))
  {
    if EncodableValue(f, items[0]) && EncodableItems(f, items[1..]) {
      forall i | 0 <= i < |items| ensures EncodableValue(f, items[i]) {
        if i > 0 {
          assert items[i] == items[1..][i - 1];
        }
      }
    }
  }

  // ---- Packed arrays ----

  /** The items before the i-th were written. */
  ghost predicate PackedDone(f: Field, items: seq<Value>, i: nat, start: Moment, now: Moment, done: bytes)
    requires start.Valid()
  {
    && i <= |items|
    && Appends(start, now, true, Some(done))
    && Some(EncodePacked(f, items)) == Prepend(done, Some(EncodePacked(f, items[i..])))
  }

  lemma NextPacked(f: Field, items: seq<Value>, i: nat, start: Moment, before: Moment, now: Moment, done: bytes,
                   ok: bool)
    returns (done': bytes)
    requires start.Valid() && PackedDone(f, items, i, start, before, done) && i < |items|
    requires Appends(before, now, ok, Some(EncodeScalar(f, items[i])))
    ensures ok ==> PackedDone(f, items, i + 1, start, now, done')
    ensures !ok ==> Appends(start, now, false, Some(EncodePacked(f, items)))
  {
    var b, rest := EncodeScalar(f, items[i]), Some(EncodePacked(f, items[i + 1..]));
    assert items[i..][1..] == items[i + 1..];
    PrependTwice(done, b, rest);
    AppendsThen(start, before, now, done, ok, Some(b));
    done' := done + b;
    if !ok {
      AppendsFailed(start, now, Some(done'), Some(EncodePacked(f, items)));
    }
  }

  /** The items of a packed array, one after the other. */
  method EncodePackedItems(stream: OStream, f: Field, items: seq<Value>) returns (ok: bool)
    requires stream.Valid() && WellFormedField(f) && Packable(f.ltype)
    requires forall i | 0 <= i < |items| :: ScalarShape(f, items[i])
    modifies stream, stream.buf
    ensures Appends(old(stream.Now()), stream.Now(), ok, Some(EncodePacked(f, items)))
  {
    var i := 0;
    ghost var start, done := stream.Now(), [];
    AppendsNothing(start);
    PrependTwice([], [], Some(EncodePacked(f, items)));
    assert items[0..] == items;
    while i < |items|
      invariant i <= |items| && stream.Valid() && PackedDone(f, items, i, start, stream.Now(), done)
    {
      ghost var before := stream.Now();
      PackableIsEncodable(f, items[i]);
      ok := EncScalar(stream, f, items[i]);
      done := NextPacked(f, items, i, start, before, stream.Now(), done, ok);
      if !ok {
        return;
      }
      i := i + 1;
    }
    assert done + [] == done;
    return true;
  }

  lemma PackableIsEncodable(f: Field, v: Value)
    requires Packable(f.ltype) && ScalarShape(f, v)
    ensures EncodableScalar(f, v)
  {
  }

  /** The size of a packed array, from a sizing stream unless the items have a fixed width. */
  method PackedLength(f: Field, items: seq<Value>) returns (size: nat)
    requires WellFormedField(f) && Packable(f.ltype)
    requires forall i | 0 <= i < |items| :: ScalarShape(f, items[i])
    ensures size == |EncodePacked(f, items)|
  {
    PackedSize(f, items);
    if f.ltype.LFixed32? {
      size := 4 * |items|;
    } else if f.ltype.LFixed64? {
      size := 8 * |items|;
    } else {
      var sizestream := new OStream.Sizing();
      var ok := EncodePackedItems(sizestream, f, items);
      size := sizestream.bytesWritten;
    }
  }

  /** The packed branch of encode_array */
  method EncodePackedArray(stream: OStream, f: Field, items: seq<Value>) returns (ok: bool)
    requires stream.Valid() && WellFormedField(f) && Packable(f.ltype) && |items| <= f.arraySize
    requires forall i | 0 <= i < |items| :: ScalarShape(f, items[i])
    modifies stream, stream.buf
    ensures Appends(old(stream.Now()), stream.Now(), ok,
                    Some(TagBytes(f.tag, LengthDelimited) + Blob(EncodePacked(f, items))))
  {
    ghost var start, data := stream.Now(), EncodePacked(f, items);
    ghost var head, prefix := TagBytes(f.tag, LengthDelimited), VarintBytes(|data|);
    ghost var whole := head + Blob(data);
    PackedSize(f, items);
    ok := stream.EncodeTag(LengthDelimited, f.tag);
    if !ok {
      AppendsFailed(start, stream.Now(), Some(head), Some(whole));
      return;
    }
    var size := PackedLength(f, items);
    ghost var before := stream.Now();
    ok := stream.EncodeVarint(size);
    AppendsThen(start, before, stream.Now(), head, ok, Some(prefix));
    if !ok {
      AppendsFailed(start, stream.Now(), Some(head + prefix), Some(whole));
      return;
    }
    before := stream.Now();
    if stream.buf == null {
      stream.Count(size, data);
    } else {
      ok := EncodePackedItems(stream, f, items);
    }
    AppendsThen(start, before, stream.Now(), head + prefix, ok, Some(data));
    assert head + prefix + data == whole;
  }

  // ---- Messages ----

  /** A tag and the value after it. */
  method EncodeTagged(stream: OStream, f: Field, v: Value) returns (ok: bool)
    requires stream.Valid() && WellFormedField(f) && ValueShape(f, v, false)
    requires |EncodeValue(f, v)| < TWO64
    modifies stream, stream.buf
    ensures Appends(old(stream.Now()), stream.Now(), ok, Prepend(TagFor(f), ValueEncoding(f, v)))
    decreases f, 1
  {
    ghost var start := stream.Now();
    ok := stream.EncodeTag(WireTypeFor(f.ltype), f.tag);
    if !ok {
      AppendsFailed(start, stream.Now(), Some(TagFor(f)), Prepend(TagFor(f), ValueEncoding(f, v)));
      return;
    }
    ghost var before := stream.Now();
    if f.ltype.LSubmessage? {
      ok := EncodeSubmessage(stream, f.ltype.sub, v.msg);
    } else {
      ok := EncScalar(stream, f, v);
    }
    AppendsThen(start, before, stream.Now(), TagFor(f), ok, ValueEncoding(f, v));
  }

  /** The items before the i-th were encoded, each with its own tag. */
  ghost predicate ItemsDone(f: Field, items: seq<Value>, i: nat, start: Moment, now: Moment, done: bytes)
    requires start.Valid()
  {
    && i <= |items|
    && Appends(start, now, true, Some(done))
    && ItemsEncoding(f, items) == Prepend(done, ItemsEncoding(f, items[i..]))
  }

  lemma NextItem(f: Field, items: seq<Value>, i: nat, start: Moment, before: Moment, now: Moment, done: bytes, ok: bool)
    returns (done': bytes)
    requires start.Valid() && ItemsDone(f, items, i, start, before, done) && i < |items|
    requires Appends(before, now, ok, Prepend(TagFor(f), ValueEncoding(f, items[i])))
    ensures ok ==> ItemsDone(f, items, i + 1, start, now, done')
    ensures !ok ==> Appends(start, now, false, ItemsEncoding(f, items))
  {
    var e := Prepend(TagFor(f), ValueEncoding(f, items[i]));
    assert items[i..][1..] == items[i + 1..];
    ItemsStep(f, items[i..]);
    AppendsThen(start, before, now, done, ok, e);
    if ok {
      done' := done + e.value;
      PrependTwice(done, e.value, ItemsEncoding(f, items[i + 1..]));
    } else {
      done' := done;
      AppendsFailed(start, now, Prepend(done, e), ItemsEncoding(f, items));
    }
  }

  /** The unpacked branch of encode_array */
  method EncodeUnpackedArray(stream: OStream, f: Field, items: seq<Value>) returns (ok: bool)
    requires stream.Valid() && WellFormedField(f)
    requires forall i | 0 <= i < |items| :: ValueShape(f, items[i], false)
    requires |EncodeItems(f, items)| < TWO64
    modifies stream, stream.buf
    ensures Appends(old(stream.Now()), stream.Now(), ok, ItemsEncoding(f, items))
    decreases f, 2
  {
    var i := 0;
    ghost var start, done := stream.Now(), [];
    AppendsNothing(start);
    PrependTwice([], [], ItemsEncoding(f, items));
    assert items[0..] == items;
    while i < |items|
      invariant i <= |items| && stream.Valid() && ItemsDone(f, items, i, start, stream.Now(), done)
    {
      ghost var before := stream.Now();
      RoundTrip.ItemBound(f, items, i);
      ok := EncodeTagged(stream, f, items[i]);
      done := NextItem(f, items, i, start, before, stream.Now(), done, ok);
      if !ok {
        return;
      }
      i := i + 1;
    }
    assert done + [] == done;
    return true;
  }

  /** encode_array */
  method EncodeArray(stream: OStream, f: Field, items: seq<Value>) returns (ok: bool)
    requires stream.Valid() && WellFormedField(f) && f.htype.Repeated? && items != []
    requires forall i | 0 <= i < |items| :: ValueShape(f, items[i], false)
    requires |EncodeSlot(f, SRepeated(items))| < TWO64
    modifies stream, stream.buf
    ensures Appends(old(stream.Now()), stream.Now(), ok, SlotEncoding(f, SRepeated(items)))
    decreases f, 3
  {
    if |items| > f.arraySize {
      stream.SetError(ArrayTooLong);
      return false;
    }
    if Packable(f.ltype) {
      forall i | 0 <= i < |items| ensures ScalarShape(f, items[i]) && EncodableValue(f, items[i]) {
        assert ValueShape(f, items[i], false);
        PackableIsEncodable(f, items[i]);
      }
      assert EncodableItems(f, items);
      ok := EncodePackedArray(stream, f, items);
    } else {
      ok := EncodeUnpackedArray(stream, f, items);
    }
  }

  /** encode_basic_field */
  method EncodeBasicField(stream: OStream, f: Field, slot: Slot) returns (ok: bool)
    requires stream.Valid() && WellFormedField(f) && SlotShape(f, slot, false)
    requires Emits(f, slot) ==> |EncodeSlot(f, slot)| < TWO64
    modifies stream, stream.buf
    ensures Appends(old(stream.Now()), stream.Now(), ok, SlotEncoding(f, slot))
    decreases f, 4
  {
    AppendsNothing(stream.Now());
    var implicitHas := true;
    if f.sizeOffset == 0 && f.htype.Optional? {
      var zero := CheckDefaultValue(f, slot);
      implicitHas := !zero;
    }
    match f.htype
    case Required => ok := EncodeTagged(stream, f, slot.v);
    case Optional =>
      var has := if f.sizeOffset != 0 then slot.has else implicitHas;
      if has {
        ok := EncodeTagged(stream, f, slot.v);
      } else {
        ok := true;
      }
    case Repeated =>
      if |slot.items| == 0 {
        ok := true;
      } else {
        ok := EncodeArray(stream, f, slot.items);
      }
    case Oneof =>
      if slot.SOne? && slot.which == f.tag {
        ok := EncodeTagged(stream, f, slot.v);
      } else {
        ok := true;
      }
  }

  /** The first n fields of the message were encoded. */
  ghost predicate FieldsDone(d: Desc, m: Message, n: nat, start: Moment, now: Moment, done: bytes)
    requires start.Valid()
  {
    && n <= |d.fields|
    && Appends(start, now, true, Some(done))
    && Encoding(d, m) == Prepend(done, EncodingFrom(d, m, n))
  }

  lemma NextField(d: Desc, m: Message, n: nat, start: Moment, before: Moment, now: Moment, done: bytes, ok: bool)
    returns (done': bytes)
    requires start.Valid() && FieldsDone(d, m, n, start, before, done) && n < |d.fields|
    requires Appends(before, now, ok, SlotEncoding(d.fields[n], SlotAt(m, d.fields[n].storage)))
    ensures ok ==> FieldsDone(d, m, n + 1, start, now, done')
    ensures !ok ==> Appends(start, now, false, Encoding(d, m))
  {
    var e := SlotEncoding(d.fields[n], SlotAt(m, d.fields[n].storage));
    EncodingStep(d, m, n);
    AppendsThen(start, before, now, done, ok, e);
    if ok {
      done' := done + e.value;
      PrependTwice(done, e.value, EncodingFrom(d, m, n + 1));
    } else {
      done' := done;
      AppendsFailed(start, now, Prepend(done, e), Encoding(d, m));
    }
  }

  lemma NoFields(d: Desc, m: Message, start: Moment)
    requires start.Valid()
    ensures FieldsDone(d, m, 0, start, start, [])
  {
    AppendsNothing(start);
    EncodingWhole(d, m);
    PrependTwice([], [], Encoding(d, m));
  }

  lemma AllFields(d: Desc, m: Message, start: Moment, now: Moment, done: bytes)
    requires start.Valid() && FieldsDone(d, m, |d.fields|, start, now, done)
    ensures Appends(start, now, true, Encoding(d, m))
  {
    EncodingWhole(d, m);
    assert done + [] == done;
  }

  /** Every field's bytes are part of the message. */
  lemma {:induction false} FieldBound(d: Desc, m: Message, i: nat, n: nat)
    requires i <= n < |d.fields|
    ensures Emits(d.fields[n], SlotAt(m, d.fields[n].storage)) ==>
              |EncodeSlot(d.fields[n], SlotAt(m, d.fields[n].storage))| <= |EncodeFrom(d, m, i)|
    decreases n - i
  {
    if i < n {
      FieldBound(d, m, i + 1, n);
    }
  }

  /** encode_field, for the field the iterator stands on */
  method EncodeField(stream: OStream, d: Desc, m: Message, pos: nat, ghost n: nat, ghost start: Moment,
                     ghost done: bytes)
      returns (ok: bool, ghost done': bytes)
    requires WellFormed(d) && MessageShape(d, m, false) && |EncodeMessage(d, m)| < TWO64 && pos == n < |d.fields|
    requires stream.Valid() && start.Valid() && FieldsDone(d, m, n, start, stream.Now(), done)
    modifies stream, stream.buf
    ensures stream.Valid()
    ensures ok ==> FieldsDone(d, m, n + 1, start, stream.Now(), done')
    ensures !ok ==> Appends(start, stream.Now(), false, Encoding(d, m))
    decreases d, 1
  {
    var f := d.fields[pos];
    ghost var before := stream.Now();
    FieldBound(d, m, 0, n);
    ok := EncodeBasicField(stream, f, SlotAt(m, f.storage));
    done' := NextField(d, m, n, start, before, stream.Now(), done, ok);
  }

  /** The iterator of pb_encode stands on field n, or has gone around after the last one. */
  ghost predicate StandsOn(iter: FieldIterator, d: Desc, n: nat, more: bool)
    reads iter
  {
    && iter.Valid() && iter.fields == d.fields
    && (if more then iter.pos == n < |d.fields| else n == |d.fields|)
  }

  method Advance(iter: FieldIterator, d: Desc, ghost n: nat) returns (more: bool)
    requires StandsOn(iter, d, n, true)
    modifies iter
    ensures StandsOn(iter, d, n + 1, more)
  {
    more := iter.Next();
  }

  /** pb_encode */
  method Encode(stream: OStream, d: Desc, m: Message) returns (ok: bool)
    requires stream.Valid() && WellFormed(d) && MessageShape(d, m, false)
    requires |EncodeMessage(d, m)| < TWO64
    modifies stream, stream.buf
    ensures Appends(old(stream.Now()), stream.Now(), ok, Encoding(d, m))
    decreases d, 2
  {
    ghost var start, done, n := stream.Now(), [], 0;
    NoFields(d, m, start);
    MessageDecoder.WellFormedTerminates(d);
    var iter := new FieldIterator(d.fields, 0);
    var more := iter.Begin();
    if !more {
      AllFields(d, m, start, start, done);
      return true;
    }
    while more
      invariant fresh(iter) && StandsOn(iter, d, n, more)
      invariant stream.Valid() && FieldsDone(d, m, n, start, stream.Now(), done)
      decreases |d.fields| - n
    {
      ok, done := EncodeField(stream, d, m, iter.pos, n, start, done);
      if !ok {
        return;
      }
      more := Advance(iter, d, n);
      n := n + 1;
    }
    AllFields(d, m, start, stream.Now(), done);
    return true;
  }

  /** pb_encode_submessage and pb_encode_delimited: a size pass, the size, and a write pass in a window of that size. */
  method EncodeSubmessage(stream: OStream, d: Desc, m: Message) returns (ok: bool)
    requires stream.Valid() && WellFormed(d) && MessageShape(d, m, false)
    requires |EncodeMessage(d, m)| < TWO64
    modifies stream, stream.buf
    ensures Appends(old(stream.Now()), stream.Now(), ok,
                    if Encodable(d, m) then Some(Blob(EncodeMessage(d, m))) else None)
    decreases d, 5
  {
    var substream := new OStream.Sizing();
    ok := Encode(substream, d, m);
    if !ok {
      stream.errmsg := substream.errmsg;
      return;
    }
    ok := EncodeSized(stream, d, m, substream.bytesWritten);
  }

  /** What pb_encode_submessage does after its size pass. */
  method EncodeSized(stream: OStream, d: Desc, m: Message, size: nat) returns (ok: bool)
    requires stream.Valid() && WellFormed(d) && MessageShape(d, m, false)
    requires Encodable(d, m) && size == |EncodeMessage(d, m)| < TWO64
    modifies stream, stream.buf
    ensures Appends(old(stream.Now()), stream.Now(), ok, Some(Blob(EncodeMessage(d, m))))
    decreases d, 4
  {
    ghost var start, data := stream.Now(), EncodeMessage(d, m);
    ghost var prefix := VarintBytes(size);
    ok := stream.EncodeVarint(size);
    if !ok {
      AppendsFailed(start, stream.Now(), Some(prefix), Some(prefix + data));
      return;
    }
    ghost var before := stream.Now();
    if stream.buf == null {
      stream.Count(size, data);
    } else if stream.bytesWritten + size > stream.maxSize {
      stream.SetError(StreamFull);
      ok := false;
    } else {
      ok := WritePass(stream, d, m, size);
    }
    AppendsThen(start, before, stream.Now(), prefix, ok, Some(data));
  }

  /** The write pass of pb_encode_submessage. After a successful size pass the size never changes. */
  method WritePass(stream: OStream, d: Desc, m: Message, size: nat) returns (ok: bool)
    requires stream.Valid() && stream.buf != null && WellFormed(d) && MessageShape(d, m, false)
    requires Encodable(d, m) && size == |EncodeMessage(d, m)| < TWO64 && stream.Now().Fits(size)
    modifies stream, stream.buf
    ensures Appends(old(stream.Now()), stream.Now(), ok, Encoding(d, m))
    ensures ok
    decreases d, 3
  {
    var substream := new OStream.Window(stream, size);
    var status := Encode(substream, d, m);
    stream.bytesWritten := stream.bytesWritten + substream.bytesWritten;
    stream.state := substream.state;
    var changed, message := substream.bytesWritten != size, substream.errmsg;
    stream.errmsg := if changed && message.None? then Some(SizeChanged) else message;
    ok := status && !changed;
  }

  /** pb_encode_nullterminated */
  method EncodeNullTerminated(stream: OStream, d: Desc, m: Message) returns (ok: bool)
    requires stream.Valid() && WellFormed(d) && MessageShape(d, m, false)
    requires |EncodeMessage(d, m)| < TWO64
    modifies stream, stream.buf
    ensures Appends(old(stream.Now()), stream.Now(), ok,
                    if Encodable(d, m) then Some(EncodeMessage(d, m) + [0]) else None)
  {
    ghost var start, data := stream.Now(), EncodeMessage(d, m);
    ok := Encode(stream, d, m);
    if !ok {
      AppendsFailed(start, stream.Now(), Encoding(d, m), if Encodable(d, m) then Some(data + [0]) else None);
      return;
    }
    ghost var before := stream.Now();
    ok := stream.Write([0]);
    AppendsThen(start, before, stream.Now(), data, ok, Some([0]));
  }

  /** pb_get_encoded_size: exactly the number of bytes pb_encode writes. */
  method GetEncodedSize(d: Desc, m: Message) returns (ok: bool, size: nat)
    requires WellFormed(d) && MessageShape(d, m, false)
    requires |EncodeMessage(d, m)| < TWO64
    ensures ok <==> Encodable(d, m)
    ensures ok ==> size == |EncodeMessage(d, m)|
  {
    var stream := new OStream.Sizing();
    ok := Encode(stream, d, m);
    size := stream.bytesWritten;
  }

  /**
   Encoding into a buffer succeeds exactly when the size that GetEncodedSize reports is at most the capacity;
   the buffer then starts with the encoding and is unchanged after it.
   */
  method EncodeToBuffer(buf: array<byte>, d: Desc, m: Message) returns (ok: bool, written: nat)
    requires WellFormed(d) && MessageShape(d, m, false)
    requires |EncodeMessage(d, m)| < TWO64
    modifies buf
    ensures ok <==> Encodable(d, m) && |EncodeMessage(d, m)| <= buf.Length
    ensures ok ==> written == |EncodeMessage(d, m)| && buf[..] == EncodeMessage(d, m) + old(buf[written..])
  {
    var stream := new OStream(buf);
    ghost var start := stream.Now();
    assert start.contents == buf[..];
    ok := Encode(stream, d, m);
    written := stream.bytesWritten;
    assert stream.Now().contents == buf[..];
  }
}
