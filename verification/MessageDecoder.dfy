/**
 pb_decode and its helpers as methods that update a destination struct in place, proved against the
 decoding functions of Decoder: the iterator, the substreams and the required-field bitmap put together.
 */
module MessageDecoder {
  import opened Basics
  import opened Wire
  import opened Descriptor
  import opened Scalars
  import opened Decoder
  import opened InputStream
  import opened FieldDecoders
  import opened FieldIter
  import opened RequiredBits

  /** A destination struct; the slots that are not in the map were never initialised. */
  class Struct {
    var slots: map<nat, Slot>

    constructor (slots: map<nat, Slot>)
      ensures this.slots == slots
    {
      this.slots := slots;
    }

    function Contents(): Message
      reads this
    {
      Message(slots)
    }
  }

  /** The entry that ends every pb_field_t table. */
  const TERMINATOR := Field(0, Required, LBool, 0, 0, 0, 0, 0, None)

  function FieldAt(fields: seq<Field>, pos: nat): Field {
    if pos < |fields| then fields[pos] else TERMINATOR
  }

  // ---- Defaults ----

  /** pb_field_set_to_default */
  method FieldSetToDefault(f: Field, dest: Struct)
    requires WellFormedField(f)
    modifies dest
    ensures dest.slots == old(dest.slots)[f.storage := InitialSlot(f)]
    decreases f, 0
  {
    var initData := true;
    var slot := SNone;
    if f.htype.Optional? && f.sizeOffset != 0 {
      slot := SOptional(false, VInt(0));
    } else if f.htype.Repeated? {
      slot := SRepeated([]);
      initData := false;
    } else if f.htype.Oneof? {
      initData := false;
    }
    if initData {
      var v;
      if f.ltype.LSubmessage? {
        var nested := new Struct(map[]);
        MessageSetToDefaults(f.ltype.sub, nested);
        v := VMessage(nested.Contents());
      } else if f.initial.Some? {
        v := f.initial.value;
      } else {
        v := ZeroValue(f);
      }
      assert v == InitialValue(f);
      slot := if slot.SOptional? then SOptional(false, v) else SValue(v);
    }
    dest.slots := dest.slots[f.storage := slot];
  }

  /** pb_message_set_to_defaults: every field of the descriptor is reset, nothing else is touched. */
  method MessageSetToDefaults(d: Desc, dest: Struct)
    requires WellFormed(d)
    modifies dest
    ensures dest.slots == old(dest.slots) + Defaults(d).slots
    decreases d, 1
  {
    WellFormedTerminates(d);
    var iter := new FieldIterator(d.fields, 0);
    var more := iter.Begin();
    if !more {
      return;
    }
    ghost var n := 0;
    while more
      invariant iter.Valid() && fresh(iter) && iter.fields == d.fields
      invariant n <= |d.fields| && (more ==> iter.pos == n < |d.fields|) && (!more ==> n == |d.fields|)
      invariant dest.slots == old(dest.slots) + DefaultsUpTo(d, n)
      decreases |d.fields| - n, more
    {
      FieldSetToDefault(d.fields[iter.pos], dest);
      OneMoreDefault(old(dest.slots), d, n);
      more := iter.Next();
      n := n + 1;
    }
  }

  lemma OneMoreDefault(before: map<nat, Slot>, d: Desc, n: nat)
    requires n < |d.fields|
    ensures (before + DefaultsUpTo(d, n))[d.fields[n].storage := InitialSlot(d.fields[n])]
            == before + DefaultsUpTo(d, n + 1)
  {
  }

  lemma WellFormedTerminates(d: Desc)
    requires WellFormed(d)
    ensures Terminates(d.fields)
  {
    forall i | 0 <= i < |d.fields| ensures d.fields[i].tag != 0 {
      assert WellFormedField(d.fields[i]);
    }
  }

  // ---- One field ----

  /** The frame of a submessage: array entries start from defaults, everything else is merged into. */
  method DecFrame(substream: IStream, f: Field, current: Value) returns (ok: bool, msg: Message)
    requires substream.Valid() && f.ltype.LSubmessage? && WellFormed(f.ltype.sub)
    requires f.htype.Repeated? ==> current == ZeroValue(f)
    modifies substream
    ensures substream.Valid() && substream.End() <= old(substream.End())
    ensures ok ==> substream.End() == old(substream.End())
    ensures Agrees(DecodeNoInit(f.ltype.sub, MessageOf(f.ltype.sub, current), old(substream.Remaining())),
                   ok, msg, substream.Remaining())
    decreases substream.bytesLeft, 7
  {
    var sub := f.ltype.sub;
    var nested;
    if f.htype.Repeated? {
      nested := new Struct(map[]);
      ok := DecodeInto(substream, sub, nested);
    } else {
      nested := new Struct(MessageOf(sub, current).slots);
      ok := DecodeNoInitInto(substream, sub, nested);
    }
    msg := nested.Contents();
  }

  /** pb_dec_submessage */
  method DecSubmessage(stream: IStream, f: Field, current: Value) returns (ok: bool, v: Value)
    requires stream.Valid() && f.ltype.LSubmessage? && WellFormed(f.ltype.sub)
    requires f.htype.Repeated? ==> current == ZeroValue(f)
    modifies stream
    ensures stream.Valid() && stream.End() <= old(stream.End())
    ensures Agrees(DecodeValue(f, current, old(stream.Remaining())), ok, v, stream.Remaining())
    ensures ok ==> stream.End() == old(stream.End())
    decreases stream.bytesLeft, 0
  {
    var substream;
    v := current;
    ok, substream := stream.MakeStringSubstream();
    if !ok {
      return;
    }
    var msg;
    ok, msg := DecFrame(substream, f, current);
    v := VMessage(msg);
    var closed := stream.CloseStringSubstream(substream);
    ok := closed && ok;
  }

  /** The decoder PB_DECODERS holds for the field. */
  method DecField(stream: IStream, f: Field, current: Value) returns (ok: bool, v: Value)
    requires stream.Valid() && !f.ltype.LExtension?
    requires f.ltype.LSubmessage? ==> WellFormed(f.ltype.sub) && (f.htype.Repeated? ==> current == ZeroValue(f))
    modifies stream
    ensures stream.Valid() && stream.End() <= old(stream.End())
    ensures Agrees(DecodeValue(f, current, old(stream.Remaining())), ok, v, stream.Remaining())
    ensures ok ==> stream.End() == old(stream.End())
    decreases stream.bytesLeft, 1
  {
    if f.ltype.LSubmessage? {
      ok, v := DecSubmessage(stream, f, current);
    } else {
      ok, v := DecScalar(stream, f);
    }
  }

  /** The items of a packed array, read until the frame or the array is full or an item fails. */
  method DecPackedItems(substream: IStream, f: Field, items: seq<Value>) returns (ok: bool, items': seq<Value>)
    requires substream.Valid() && Packable(f.ltype)
    modifies substream
    ensures substream.Valid() && substream.End() == old(substream.End())
    ensures ok ==> DecodePacked(f, items, old(substream.Remaining())) == Some(items')
    ensures ok ==> substream.bytesLeft == 0
    ensures !ok ==> DecodePacked(f, items, old(substream.Remaining())).None?
  {
    var status := true;
    items' := items;
    ghost var target := DecodePacked(f, items, substream.Remaining());
    while substream.bytesLeft > 0 && |items'| < f.arraySize && status
      invariant substream.Valid() && substream.End() == old(substream.End())
      invariant status ==> target == DecodePacked(f, items', substream.Remaining())
      invariant !status ==> target.None?
      decreases if status then substream.bytesLeft + 1 else 0
    {
      var v;
      ScalarExtent(f, substream.Remaining());
      ok, v := DecScalar(substream, f);
      if !ok {
        status := false;
      } else {
        items' := items' + [v];
      }
    }
    ok := substream.bytesLeft == 0 && status;
  }

  /** The packed branch of decode_static_field. */
  method DecPackedArray(stream: IStream, f: Field, items: seq<Value>) returns (ok: bool, items': seq<Value>)
    requires stream.Valid() && Packable(f.ltype)
    modifies stream
    ensures stream.Valid() && stream.End() <= old(stream.End())
    ensures ok ==> ReadBlob(old(stream.Remaining())).Got?
                   && DecodePacked(f, items, ReadBlob(old(stream.Remaining())).value) == Some(items')
                   && stream.Remaining() == ReadBlob(old(stream.Remaining())).rest
                   && stream.End() == old(stream.End())
    ensures !ok ==> ReadBlob(old(stream.Remaining())).Fail?
                    || DecodePacked(f, items, ReadBlob(old(stream.Remaining())).value).None?
  {
    var substream;
    items' := items;
    ok, substream := stream.MakeStringSubstream();
    if !ok {
      return;
    }
    ok, items' := DecPackedItems(substream, f, items);
    if substream.bytesLeft != 0 {
      return false, items';
    }
    var closed := stream.CloseStringSubstream(substream);
    ok := closed && ok;
  }

  /** The effect of one record of a known field on the struct. */
  function AfterField(f: Field, wt: WireType, m: Message, s: bytes): Read<Message> {
    match DecodeSlot(f, wt, SlotAt(m, f.storage), s)
    case Fail => Fail
    case Got(slot, rest) => Got(Put(m, f.storage, slot), rest)
  }

  ghost predicate SameElsewhere(a: map<nat, Slot>, b: map<nat, Slot>, k: nat) {
    forall i | i != k :: (i in a <==> i in b) && (i in a ==> a[i] == b[i])
  }

  lemma PutOver(a: map<nat, Slot>, b: map<nat, Slot>, k: nat, slot: Slot)
    requires SameElsewhere(a, b, k)
    ensures b[k := slot] == a[k := slot] && SameElsewhere(a, b[k := slot], k)
  {
  }

  /** What is written before the value: has_ and which_ */
  method MarkPresent(f: Field, current: Value, dest: Struct)
    modifies dest
    ensures SameElsewhere(old(dest.slots), dest.slots, f.storage)
  {
    if f.htype.Optional? && f.sizeOffset != 0 {
      dest.slots := dest.slots[f.storage := SOptional(true, current)];
    } else if f.htype.Oneof? {
      dest.slots := dest.slots[f.storage := SOne(f.tag, current)];
    }
  }

  /** The value itself, or the next item of an array, where `slot` is what was there */
  method StoreInto(f: Field, slot: Slot, v: Value, dest: Struct)
    modifies dest
    ensures dest.slots == old(dest.slots)[f.storage := StoreValue(f, slot, v)]
  {
    var k := f.storage;
    match f.htype {
      case Required => dest.slots := dest.slots[k := SValue(v)];
      case Optional => dest.slots := dest.slots[k := if f.sizeOffset != 0 then SOptional(true, v) else SValue(v)];
      case Repeated => dest.slots := dest.slots[k := SRepeated(ItemsOf(slot) + [v])];
      case Oneof => dest.slots := dest.slots[k := SOne(f.tag, v)];
    }
  }

  /** decode_static_field; even a record that fails touches no other slot. */
  method DecodeStaticField(stream: IStream, wt: WireType, f: Field, dest: Struct) returns (ok: bool)
    requires stream.Valid() && !f.ltype.LExtension?
    requires f.ltype.LSubmessage? ==> WellFormed(f.ltype.sub)
    modifies stream, dest
    ensures stream.Valid() && stream.End() <= old(stream.End())
    ensures Agrees(AfterField(f, wt, old(dest.Contents()), old(stream.Remaining())), ok, dest.Contents(),
                   stream.Remaining())
    ensures ok ==> stream.End() == old(stream.End())
    ensures SameElsewhere(old(dest.slots), dest.slots, f.storage)
    decreases stream.bytesLeft, 2
  {
    var slot := SlotAt(dest.Contents(), f.storage);
    ghost var before := dest.slots;
    if f.htype.Repeated? && wt == LengthDelimited && Packable(f.ltype) {
      var items;
      ok, items := DecPackedArray(stream, f, ItemsOf(slot));
      dest.slots := dest.slots[f.storage := SRepeated(items)];
      assert Agrees(DecodeSlot(f, wt, slot, old(stream.Remaining())), ok, SRepeated(items), stream.Remaining());
      return;
    }
    if f.htype.Repeated? && |ItemsOf(slot)| >= f.arraySize {
      return false;
    }
    var current, v := CurrentValue(f, slot), VInt(0);
    MarkPresent(f, current, dest);
    ok, v := DecField(stream, f, current);
    PutOver(before, dest.slots, f.storage, StoreValue(f, slot, v));
    StoreInto(f, slot, v, dest);
    assert Agrees(DecodeSlot(f, wt, slot, old(stream.Remaining())), ok, StoreValue(f, slot, v), stream.Remaining());
  }

  // ---- All fields ----

  /** The number of required fields, found by running the iterator to the end of the table. */
  method CountRequired(iter: FieldIterator) returns (count: nat)
    requires iter.Valid()
    modifies iter
    ensures count == RequiredCount(Desc(iter.fields))
  {
    var more := true;
    var lastType := Optional;
    count := 0;
    ghost var n := |iter.fields|;
    while more
      invariant iter.Valid()
      invariant !more && n > 0 ==> lastType == iter.fields[n - 1].htype
      invariant !more && n > 0 ==> count == RequiredBefore(Desc(iter.fields), n - 1)
      invariant !more && n == 0 ==> count == 0
      decreases if more then 1 + n - iter.pos else 0
    {
      count := iter.requiredFieldIndex;
      lastType := FieldAt(iter.fields, iter.pos).htype;
      more := iter.Next();
    }
    if lastType.Required? && TagAt(iter.fields, iter.pos) != 0 {
      count := count + 1;
    }
  }

  /** The bitmap holds the numbers of the required fields that occurred. */
  ghost predicate Tracks(d: Desc, seen: set<nat>, words: seq<nat>, marked: set<nat>) {
    Holds(words, marked) && (d.fields != [] ==> marked == SeenNumbers(d, seen))
  }

  /** The whole-word and remainder comparison accepts exactly when RequiredSeen holds. */
  method CheckRequired(d: Desc, iter: FieldIterator, fieldsSeen: array<nat>, ghost seen: set<nat>,
                       ghost marked: set<nat>)
      returns (ok: bool)
    requires iter.Valid() && iter.fields == d.fields
    requires fieldsSeen.Length == 2 && Tracks(d, seen, fieldsSeen[..], marked)
    modifies iter
    ensures ok <==> RequiredSeen(d, seen)
  {
    var count := CountRequired(iter);
    NumbersMeanRequired(d, seen);
    SeenNumbersBound(d, seen);
    if count == 0 {
      return true;
    }
    ok := CheckSeen(fieldsSeen, count, marked);
  }

  /** What the iterator's answer for a tag means for the record that follows. */
  lemma FoundField(d: Desc, tag: nat, pos: nat, found: bool)
    requires WellFormed(d)
    requires found <==> HasMatch(d.fields, tag)
    requires found ==> Matches(d.fields, pos, tag)
    ensures d.fields != [] ==> if found then pos < |d.fields| && Find(d, tag) == Some(FieldAt(d.fields, pos))
                               else Find(d, tag).None?
    ensures d.fields == [] ==> Find(d, tag).None? && (found <==> tag == 0)
    ensures found ==> !FieldAt(d.fields, pos).ltype.LExtension?
    ensures found && pos < |d.fields| ==> WellFormedField(d.fields[pos]) && d.fields[pos].tag == tag
  {
    FindAgrees(d, tag, pos);
    WellFormedTerminates(d);
  }

  /** The tags seen once a record was found at this position. */
  ghost function SeenAfter(d: Desc, seen: set<nat>, found: bool, pos: nat): set<nat> {
    if found && pos < |d.fields| then seen + {d.fields[pos].tag} else seen
  }

  /** Looking up the tag and marking the field it belongs to keeps the bitmap in step. */
  method FindAndMark(d: Desc, iter: FieldIterator, fieldsSeen: array<nat>, tag: nat, ghost seen: set<nat>,
                     ghost marked: set<nat>)
      returns (found: bool, ghost marked': set<nat>)
    requires iter.Valid() && iter.fields == d.fields && WellFormed(d)
    requires fieldsSeen.Length == 2 && Tracks(d, seen, fieldsSeen[..], marked)
    modifies iter, fieldsSeen
    ensures iter.Valid()
    ensures found <==> HasMatch(d.fields, tag)
    ensures found ==> Matches(d.fields, iter.pos, tag)
    ensures Tracks(d, SeenAfter(d, seen, found, iter.pos), fieldsSeen[..], marked')
  {
    marked' := marked;
    found := iter.Find(tag);
    if !found {
      return;
    }
    if iter.pos < |d.fields| {
      SeenNumbersAdd(d, seen, iter.pos);
    }
    var index := iter.requiredFieldIndex;
    if FieldAt(iter.fields, iter.pos).htype.Required? && index < MAX_REQUIRED_FIELDS {
      MarkSeen(fieldsSeen, index, marked);
      marked' := marked + {index};
    }
  }

  lemma EmptyHolds(words: seq<nat>)
    requires words == [0, 0]
    ensures Holds(words, {})
  {
    forall i | 0 <= i < 64 ensures !BitAt(words, i) {
      Bits.ZeroHasNoBits(i % 32);
    }
  }

  /** One record after its tag was read: decoded into the field at this position, or skipped. */
  method DecodeRecord(stream: IStream, d: Desc, dest: Struct, found: bool, pos: nat, tag: nat, wt: WireType)
      returns (ok: bool)
    requires stream.Valid() && WellFormed(d)
    requires found <==> HasMatch(d.fields, tag)
    requires found ==> Matches(d.fields, pos, tag)
    modifies stream, dest
    ensures stream.Valid() && stream.End() <= old(stream.End())
    ensures ok ==> stream.End() == old(stream.End())
    ensures Agrees(AfterRecord(d, old(dest.Contents()), tag, wt, old(stream.Remaining())), ok, dest.Contents(),
                   stream.Remaining())
    decreases stream.bytesLeft, 3
  {
    FoundField(d, tag, pos, found);
    if !found {
      ok := stream.SkipFieldBytes(wt);
      return;
    }
    var f := FieldAt(d.fields, pos);
    if pos < |d.fields| {
      ok := DecodeStaticField(stream, wt, f, dest);
    } else {
      // The terminator of an empty table: its bool lands in the dummy member of the empty struct.
      var dummy := new Struct(map[]);
      TerminatorRecord(wt, stream.Remaining());
      ok := DecodeStaticField(stream, wt, f, dummy);
    }
  }

  /** A record matched by the terminator is read as a bool. */
  lemma TerminatorRecord(wt: WireType, s: bytes)
    ensures DecodeSlot(TERMINATOR, wt, SNone, s)
         == match ReadVarint32(s)
            case Fail => Fail
            case Got(v, rest) => Got(SValue(VBool(v != 0)), rest)
  {
  }

  /** The effect of one record on the struct. */
  function AfterRecord(d: Desc, m: Message, tag: nat, wt: WireType, s: bytes): Read<Message> {
    match Find(d, tag)
    case None =>
      (match SkipUnknown(d, tag, wt, s)
       case Fail => Fail
       case Got(_, rest) => Got(m, rest))
    case Some(f) => AfterField(f, wt, m, s)
  }

  lemma RecordProgress(d: Desc, m: Message, tag: nat, wt: WireType, s: bytes)
    ensures Progress(s, AfterRecord(d, m, tag, wt, s))
  {
    UnknownFacts(d, tag, wt, s, []);
    if Find(d, tag).Some? {
      SkipRecordFacts(Find(d, tag).value, wt, s, []);
    }
  }

  /** One turn of the loop: a tag, then its record. */
  lemma LoopTurn(d: Desc, m: Message, seen: set<nat>, s: bytes, found: bool, pos: nat)
    requires s != [] && ReadTag(s).Tag? && WellFormed(d)
    requires found <==> HasMatch(d.fields, ReadTag(s).tag)
    requires found ==> Matches(d.fields, pos, ReadTag(s).tag)
    ensures |ReadTag(s).rest| < |s|
    ensures Progress(ReadTag(s).rest, AfterRecord(d, m, ReadTag(s).tag, ReadTag(s).wt, ReadTag(s).rest))
    ensures DecodeLoop(d, m, seen, s)
         == match AfterRecord(d, m, ReadTag(s).tag, ReadTag(s).wt, ReadTag(s).rest)
            case Fail => Reject
            case Got(m', rest) => DecodeLoop(d, m', SeenAfter(d, seen, found, pos), rest)
  {
    var tag, wt, rest := ReadTag(s).tag, ReadTag(s).wt, ReadTag(s).rest;
    FoundField(d, tag, pos, found);
    RecordProgress(d, m, tag, wt, rest);
    Varint32Frame(s);
  }

  /** The body of the loop of pb_decode_noinit: it goes on, stops at a zero terminator, or fails. */
  method DecodeNext(stream: IStream, d: Desc, iter: FieldIterator, fieldsSeen: array<nat>, dest: Struct,
                    ghost seen: set<nat>, ghost marked: set<nat>)
      returns (ok: bool, stopped: bool, ghost seen': set<nat>, ghost marked': set<nat>)
    requires stream.Valid() && stream.bytesLeft != 0 && WellFormed(d) && iter.Valid() && iter.fields == d.fields
    requires fieldsSeen.Length == 2 && Tracks(d, seen, fieldsSeen[..], marked)
    modifies stream, dest, iter, fieldsSeen
    ensures stream.Valid() && stream.End() <= old(stream.End()) && iter.Valid()
    ensures ok ==> Tracks(d, seen', fieldsSeen[..], marked')
    ensures ok ==> stream.End() == old(stream.End()) && (stopped || stream.bytesLeft < old(stream.bytesLeft))
    ensures DecodeLoop(d, old(dest.Contents()), seen, old(stream.Remaining()))
         == if !ok then Reject
            else if stopped then Accept(dest.Contents(), seen', false, stream.Remaining())
            else DecodeLoop(d, dest.Contents(), seen', stream.Remaining())
    decreases stream.bytesLeft, 4
  {
    var wt, tag, eof, found;
    ghost var before := stream.Remaining();
    seen', marked', stopped := seen, marked, false;
    ok, wt, tag, eof := stream.DecodeTag();
    if !ok {
      return eof, true, seen, marked;
    }
    found, marked' := FindAndMark(d, iter, fieldsSeen, tag, seen, marked);
    LoopTurn(d, dest.Contents(), seen, before, found, iter.pos);
    seen' := SeenAfter(d, seen, found, iter.pos);
    ok := DecodeRecord(stream, d, dest, found, iter.pos, tag, wt);
  }

  /** pb_decode_noinit */
  method DecodeNoInitInto(stream: IStream, d: Desc, dest: Struct) returns (ok: bool)
    requires stream.Valid() && WellFormed(d)
    modifies stream, dest
    ensures stream.Valid() && stream.End() <= old(stream.End())
    ensures Agrees(DecodeNoInit(d, old(dest.Contents()), old(stream.Remaining())), ok, dest.Contents(),
                   stream.Remaining())
    ensures ok ==> stream.End() == old(stream.End())
    decreases stream.bytesLeft, 5
  {
    WellFormedTerminates(d);
    var fieldsSeen := new nat[2] (_ => 0);
    var iter := new FieldIterator(d.fields, 0);
    ghost var seen, marked := {}, {};
    ghost var target := DecodeLoop(d, dest.Contents(), seen, stream.Remaining());
    EmptyHolds(fieldsSeen[..]);
    var stopped := false;
    while stream.bytesLeft != 0 && !stopped
      invariant stream.Valid() && stream.End() == old(stream.End())
      invariant iter.Valid() && fresh(iter) && iter.fields == d.fields && fresh(fieldsSeen)
      invariant Tracks(d, seen, fieldsSeen[..], marked)
      invariant !stopped ==> stream.bytesLeft <= old(stream.bytesLeft)
                             && target == DecodeLoop(d, dest.Contents(), seen, stream.Remaining())
      invariant stopped ==> target == Accept(dest.Contents(), seen, false, stream.Remaining())
      decreases if stopped then 0 else 1 + stream.bytesLeft
    {
      ok, stopped, seen, marked := DecodeNext(stream, d, iter, fieldsSeen, dest, seen, marked);
      if !ok {
        return false;
      }
    }
    ok := CheckRequired(d, iter, fieldsSeen, seen, marked);
  }

  /** pb_decode, into memory laid out for d */
  method DecodeInto(stream: IStream, d: Desc, dest: Struct) returns (ok: bool)
    requires stream.Valid() && WellFormed(d)
    requires dest.slots.Keys <= Defaults(d).slots.Keys
    modifies stream, dest
    ensures stream.Valid() && stream.End() <= old(stream.End())
    ensures Agrees(Decode(d, old(stream.Remaining())), ok, dest.Contents(), stream.Remaining())
    ensures ok ==> stream.End() == old(stream.End())
    decreases stream.bytesLeft, 6
  {
    MessageSetToDefaults(d, dest);
    assert dest.slots == Defaults(d).slots;
    ok := DecodeNoInitInto(stream, d, dest);
  }

  /** pb_decode_delimited_noinit: merges one frame into the struct. */
  method DecodeDelimitedNoInit(stream: IStream, d: Desc, dest: Struct) returns (ok: bool)
    requires stream.Valid() && WellFormed(d)
    modifies stream, dest
    ensures stream.Valid() && stream.End() <= old(stream.End())
    ensures ok <==> ReadBlob(old(stream.Remaining())).Got?
                    && DecodeNoInit(d, old(dest.Contents()), ReadBlob(old(stream.Remaining())).value).Got?
    ensures ok ==>
              dest.Contents() == DecodeNoInit(d, old(dest.Contents()), ReadBlob(old(stream.Remaining())).value).value
                   && stream.Remaining() == ReadBlob(old(stream.Remaining())).rest
                   && stream.End() == old(stream.End())
  {
    var substream;
    ok, substream := stream.MakeStringSubstream();
    if !ok {
      return;
    }
    var status := DecodeNoInitInto(substream, d, dest);
    var closed := stream.CloseStringSubstream(substream);
    ok := closed && status;
  }

  /** pb_decode_delimited: the parent ends up exactly past the frame, however much was read inside. */
  method DecodeDelimited(stream: IStream, d: Desc, dest: Struct) returns (ok: bool)
    requires stream.Valid() && WellFormed(d)
    requires dest.slots.Keys <= Defaults(d).slots.Keys
    modifies stream, dest
    ensures stream.Valid() && stream.End() <= old(stream.End())
    ensures ok <==> ReadBlob(old(stream.Remaining())).Got? && Decode(d, ReadBlob(old(stream.Remaining())).value).Got?
    ensures ok ==> dest.Contents() == Decode(d, ReadBlob(old(stream.Remaining())).value).value
                   && stream.Remaining() == ReadBlob(old(stream.Remaining())).rest
                   && stream.End() == old(stream.End())
  {
    var substream;
    ok, substream := stream.MakeStringSubstream();
    if !ok {
      return;
    }
    var status := DecodeInto(substream, d, dest);
    var closed := stream.CloseStringSubstream(substream);
    ok := closed && status;
  }
}
