/**
 Message descriptors (pb_field_t tables) and the messages they describe. A struct is a map from
 storage ids to slots; the members of one oneof share a storage id, as they share the union.
 */
module Descriptor {
  import opened Basics
  import opened Bits

  // The descriptors of this repository are built with 32-bit pb_size_t.
  const SIZE_MAX := 0xFFFF_FFFF
  // Offset of the data in pb_bytes_array_t.
  const BYTES_OFFSET := 4
  // Tags fit in 29 bits, because tag and wire type share one varint32.
  const TAG_LIMIT := 0x2000_0000

  datatype WireType = Varint | Fixed64Bit | LengthDelimited | Fixed32Bit | Other(code: nat)

  datatype HType = Required | Optional | Repeated | Oneof

  datatype LType =
    | LBool | LVarint | LUVarint | LSVarint | LFixed32 | LFixed64
    | LBytes | LString | LSubmessage(sub: Desc) | LExtension | LFixedBytes

  datatype Field = Field(tag: nat, htype: HType, ltype: LType,
                         dataOffset: nat, sizeOffset: int, dataSize: nat, arraySize: nat,
                         storage: nat, initial: Option<Value>)

  datatype Desc = Desc(fields: seq<Field>)

  datatype Value =
    | VBool(b: bool)
    | VInt(i: int)
    | VData(data: bytes)       // the contents of a bytes, string or fixed-length bytes field
    | VMessage(msg: Message)

  datatype Slot =
    | SValue(v: Value)               // required, or optional without a has_ field
    | SOptional(has: bool, v: Value)
    | SRepeated(items: seq<Value>)   // the first _count items
    | SNone                          // oneof with which_ == 0
    | SOne(which: nat, v: Value)

  datatype Message = Message(slots: map<nat, Slot>)

  // ---- Reading the descriptor ----

  /** PB_LTYPE(type) <= PB_LTYPE_LAST_PACKABLE */
  predicate Packable(t: LType) {
    t.LBool? || t.LVarint? || t.LUVarint? || t.LSVarint? || t.LFixed32? || t.LFixed64?
  }

  predicate IsSingular(f: Field) {
    f.htype.Optional? && f.sizeOffset == 0
  }

  /** The first position at or after `i` of a non-extension field with this tag; |fields| if none. */
  function FindFrom(d: Desc, tag: nat, i: nat): (p: nat)
    requires i <= |d.fields|
    ensures i <= p <= |d.fields|
    ensures p < |d.fields| ==> d.fields[p].tag == tag && !d.fields[p].ltype.LExtension?
    decreases |d.fields| - i
  {
    if i == |d.fields| then i
    else if d.fields[i].tag == tag && !d.fields[i].ltype.LExtension? then i
    else FindFrom(d, tag, i + 1)
  }

  function Find(d: Desc, tag: nat): Option<Field> {
    var p := FindFrom(d, tag, 0);
    if p < |d.fields| then Some(d.fields[p]) else None
  }

  function SlotAt(m: Message, k: nat): Slot {
    if k in m.slots then m.slots[k] else SNone
  }

  function WireCode(wt: WireType): nat {
    match wt
    case Varint => 0
    case Fixed64Bit => 1
    case LengthDelimited => 2
    case Fixed32Bit => 5
    case Other(c) => c
  }

  function WireTypeOf(code: nat): WireType {
    if code == 0 then Varint
    else if code == 1 then Fixed64Bit
    else if code == 2 then LengthDelimited
    else if code == 5 then Fixed32Bit
    else Other(code)
  }

  // ---- Integer fields ----

  predicate IsIntSize(size: nat) {
    size == 1 || size == 2 || size == 4 || size == 8
  }

  function Width(size: nat): (w: nat)
    ensures w >= 256
  {
    if size == 1 then 0x100
    else if size == 2 then 0x1_0000
    else if size == 4 then TWO32
    else TWO64
  }

  /** A cast of the low bits of `v` to a signed type with `w` values. */
  function ToSigned(v: int, w: nat): int
    requires w > 0
  {
    if v % w >= w / 2 then v % w - w else v % w
  }

  predicate FitsSigned(size: nat, i: int) {
    IsIntSize(size) && -(Width(size) / 2) <= i < Width(size) / 2
  }

  predicate FitsUnsigned(size: nat, i: int) {
    IsIntSize(size) && 0 <= i < Width(size)
  }

  // ---- Defaults: pb_message_set_to_defaults ----

  function ZeroBytes(n: nat): (z: bytes)
    ensures |z| == n
  {
    seq(n, _ => 0)
  }

  function ZeroValue(f: Field): Value
    decreases f, 0
  {
    match f.ltype
    case LBool => VBool(false)
    case LBytes => VData([])
    case LString => VData([])
    case LFixedBytes => VData(ZeroBytes(f.dataSize))
    case LSubmessage(sub) => VMessage(Defaults(sub))
    case _ => VInt(0)
  }

  function InitialValue(f: Field): Value
    decreases f, 1
  {
    if f.initial.Some? && !f.ltype.LSubmessage? then f.initial.value else ZeroValue(f)
  }

  function InitialSlot(f: Field): Slot
    decreases f, 2
  {
    match f.htype
    case Required => SValue(InitialValue(f))
    case Optional => if IsSingular(f) then SValue(InitialValue(f)) else SOptional(false, InitialValue(f))
    case Repeated => SRepeated([])
    case Oneof => SNone
  }

  function DefaultsUpTo(d: Desc, n: nat): map<nat, Slot>
    requires n <= |d.fields|
    decreases d, n
  {
    if n == 0 then map[]
    else DefaultsUpTo(d, n - 1)[d.fields[n - 1].storage := InitialSlot(d.fields[n - 1])]
  }

  function Defaults(d: Desc): Message
    decreases d, |d.fields| + 1
  {
    Message(DefaultsUpTo(d, |d.fields|))
  }

  // ---- Well-formed descriptors ----

  predicate WellFormedField(f: Field)
    decreases f, 1
  {
    && 0 < f.tag < TAG_LIMIT
    && f.dataSize <= SIZE_MAX
    && f.arraySize <= SIZE_MAX
    && (f.htype.Repeated? ==> f.sizeOffset != 0)
    && (IsSingular(f) ==> f.initial.None?)
    && (f.initial.Some? ==> FitsExactly(f, f.initial.value))
    && match f.ltype
       case LBool => true
       case LVarint => IsIntSize(f.dataSize)
       case LUVarint => IsIntSize(f.dataSize)
       case LSVarint => IsIntSize(f.dataSize)
       case LFixed32 => true
       case LFixed64 => true
       case LBytes => f.dataSize >= BYTES_OFFSET
       case LString => f.dataSize >= 1
       case LSubmessage(sub) => WellFormed(sub)
       case LExtension => false
       case LFixedBytes => true
  }

  /** Distinct tags; storage is shared only inside a oneof. */
  predicate WellFormed(d: Desc)
    decreases d, 0
  {
    && (forall i | 0 <= i < |d.fields| :: WellFormedField(d.fields[i]))
    && (forall i, j | 0 <= i < j < |d.fields| :: d.fields[i].tag != d.fields[j].tag)
    && (forall i, j | 0 <= i < j < |d.fields| && d.fields[i].storage == d.fields[j].storage ::
          d.fields[i].htype.Oneof? && d.fields[j].htype.Oneof?)
  }

  // ---- Messages of a descriptor ----

  /** A scalar of the field's type; byte arrays may claim any size. */
  predicate ScalarShape(f: Field, v: Value) {
    match f.ltype
    case LBool => v.VBool?
    case LVarint => v.VInt? && FitsSigned(f.dataSize, v.i)
    case LUVarint => v.VInt? && FitsUnsigned(f.dataSize, v.i)
    case LSVarint => v.VInt? && FitsSigned(f.dataSize, v.i)
    case LFixed32 => v.VInt? && 0 <= v.i < TWO32
    case LFixed64 => v.VInt? && 0 <= v.i < TWO64
    case LBytes => v.VData? && |v.data| <= SIZE_MAX
    case LString => v.VData? && |v.data| <= f.dataSize
    case LFixedBytes => v.VData? && |v.data| == f.dataSize
    case _ => false
  }

  /** A scalar that also fits its buffer, as the decoder leaves it: strings with their terminator. */
  predicate FitsExactly(f: Field, v: Value) {
    && ScalarShape(f, v)
    && (f.ltype.LBytes? ==> |v.data| + BYTES_OFFSET <= f.dataSize)
    && (f.ltype.LString? ==> |v.data| < f.dataSize)
  }

  /** Some member of the oneof stored at `k` has tag `which`. */
  predicate HasMember(d: Desc, k: nat, which: nat) {
    exists i | 0 <= i < |d.fields| ::
      d.fields[i].storage == k && d.fields[i].htype.Oneof? && d.fields[i].tag == which
  }

  /** Every field has its slot, and every occupied oneof slot belongs to a member. */
  predicate SlotsMatch(d: Desc, m: Message) {
    && (forall i | 0 <= i < |d.fields| :: d.fields[i].storage in m.slots)
    && (forall k | k in m.slots ::
          (exists i | 0 <= i < |d.fields| :: d.fields[i].storage == k)
          && (m.slots[k].SOne? ==> HasMember(d, k, m.slots[k].which)))
  }

  predicate ValueShape(f: Field, v: Value, strict: bool)
    decreases f, 0
  {
    if f.ltype.LSubmessage? then v.VMessage? && MessageShape(f.ltype.sub, v.msg, strict)
    else if strict then FitsExactly(f, v)
    else ScalarShape(f, v)
  }

  predicate SlotShape(f: Field, s: Slot, strict: bool)
    decreases f, 1
  {
    match f.htype
    case Required => s.SValue? && ValueShape(f, s.v, strict)
    case Optional =>
      if IsSingular(f) then s.SValue? && ValueShape(f, s.v, strict)
      else s.SOptional? && ValueShape(f, s.v, strict)
    case Repeated =>
      && s.SRepeated?
      && (strict ==> |s.items| <= f.arraySize)
      && forall i | 0 <= i < |s.items| :: ValueShape(f, s.items[i], strict)
    case Oneof => s.SNone? || (s.SOne? && (s.which == f.tag ==> ValueShape(f, s.v, strict)))
  }

  /** `strict` messages are what the decoder produces; the others may overflow an array or a buffer. */
  predicate MessageShape(d: Desc, m: Message, strict: bool)
    decreases d, 0
  {
    && SlotsMatch(d, m)
    && forall i | 0 <= i < |d.fields| :: SlotShape(d.fields[i], SlotAt(m, d.fields[i].storage), strict)
  }

  // ---- Facts about well-formed descriptors ----

  lemma {:induction false} FindFromFinds(d: Desc, i: nat, j: nat)
    requires WellFormed(d) && i <= j < |d.fields|
    ensures FindFrom(d, d.fields[j].tag, i) == j
    decreases j - i
  {
    if i < j {
      FindFromFinds(d, i + 1, j);
    }
  }

  lemma FindField(d: Desc, j: nat)
    requires WellFormed(d) && j < |d.fields|
    ensures Find(d, d.fields[j].tag) == Some(d.fields[j])
  {
    FindFromFinds(d, 0, j);
  }

  lemma {:induction false} DefaultsUpToSlots(d: Desc, n: nat, i: nat)
    requires WellFormed(d) && i < n <= |d.fields|
    ensures d.fields[i].storage in DefaultsUpTo(d, n)
    ensures DefaultsUpTo(d, n)[d.fields[i].storage] == InitialSlot(d.fields[i])
    decreases n
  {
    var l := d.fields[n - 1];
    if i < n - 1 {
      DefaultsUpToSlots(d, n - 1, i);
      if l.storage == d.fields[i].storage {
        assert l.htype.Oneof? && d.fields[i].htype.Oneof?;
      }
    }
  }

  lemma {:induction false} DefaultsUpToKeys(d: Desc, n: nat, k: nat)
    requires n <= |d.fields|
    ensures k in DefaultsUpTo(d, n) <==> exists i | 0 <= i < n :: d.fields[i].storage == k
    decreases n
  {
    if n > 0 {
      DefaultsUpToKeys(d, n - 1, k);
      assert d.fields[n - 1].storage == k ==> exists i | 0 <= i < n :: d.fields[i].storage == k;
    }
  }

  /** Defaults give every field of a well-formed descriptor its initial slot, and nothing else. */
  lemma DefaultSlots(d: Desc, i: nat)
    requires WellFormed(d) && i < |d.fields|
    ensures SlotAt(Defaults(d), d.fields[i].storage) == InitialSlot(d.fields[i])
  {
    DefaultsUpToSlots(d, |d.fields|, i);
  }

  /** The value that pb_field_set_to_default leaves: the declared default, or false, zero, no bytes, an empty struct. */
  predicate IsDefaultValue(f: Field, v: Value) {
    match f.ltype
    case LSubmessage(sub) => v == VMessage(Defaults(sub))
    case LBool => if f.initial.Some? then v == f.initial.value else v == VBool(false)
    case LBytes => if f.initial.Some? then v == f.initial.value else v == VData([])
    case LString => if f.initial.Some? then v == f.initial.value else v == VData([])
    case LFixedBytes =>
      if f.initial.Some? then v == f.initial.value
      else v.VData? && |v.data| == f.dataSize && forall k | 0 <= k < f.dataSize :: v.data[k] == 0
    case _ => if f.initial.Some? then v == f.initial.value else v == VInt(0)
  }

  lemma InitialIsDefault(f: Field)
    ensures IsDefaultValue(f, InitialValue(f))
  {
    var v := InitialValue(f);
    if f.ltype.LSubmessage? || f.initial.None? {
      assert v == ZeroValue(f);
    }
  }

  /** What every field of a default-initialised struct holds, rule by rule and type by type. */
  lemma DefaultContents(d: Desc, i: nat)
    requires WellFormed(d) && i < |d.fields|
    ensures var f, slot := d.fields[i], SlotAt(Defaults(d), d.fields[i].storage);
            match f.htype
            case Required => slot.SValue? && IsDefaultValue(f, slot.v)
            case Optional =>
              if f.sizeOffset == 0 then slot.SValue? && IsDefaultValue(f, slot.v)
              else slot.SOptional? && !slot.has && IsDefaultValue(f, slot.v)
            case Repeated => slot == SRepeated([])
            case Oneof => slot == SNone
  {
    DefaultSlots(d, i);
    InitialIsDefault(d.fields[i]);
  }

  /** Default-initialised messages are strictly well shaped. */
  lemma {:induction false} DefaultsShape(d: Desc)
    requires WellFormed(d)
    ensures MessageShape(d, Defaults(d), true)
    decreases d
  {
    var m := Defaults(d);
    forall i | 0 <= i < |d.fields|
      ensures d.fields[i].storage in m.slots
      ensures SlotShape(d.fields[i], SlotAt(m, d.fields[i].storage), true)
    {
      DefaultsUpToSlots(d, |d.fields|, i);
      assert WellFormedField(d.fields[i]);
      InitialValueShape(d.fields[i]);
    }
    forall k | k in m.slots
      ensures (exists i | 0 <= i < |d.fields| :: d.fields[i].storage == k) && !m.slots[k].SOne?
    {
      DefaultsUpToKeys(d, |d.fields|, k);
      var i :| 0 <= i < |d.fields| && d.fields[i].storage == k;
      DefaultsUpToSlots(d, |d.fields|, i);
    }
  }

  lemma {:induction false} InitialValueShape(f: Field)
    requires WellFormedField(f)
    ensures ValueShape(f, InitialValue(f), true)
    decreases f
  {
    if f.ltype.LSubmessage? {
      DefaultsShape(f.ltype.sub);
    }
  }
}
