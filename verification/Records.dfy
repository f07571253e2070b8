/**
 Field order on the wire. An accepted input is a list of records, and the decoder is a product of
 independent decoders, one for each storage cell: reordering records of different cells, or adding
 and dropping unknown ones, changes nothing.
 */
module Records {
  import opened Basics
  import opened Wire
  import opened Descriptor
  import opened Scalars
  import opened Decoder
  import opened Merging

  /** How far the payload of a record reaches, by its field or its wire type only. */
  function SkipPayload(d: Desc, tag: nat, wt: WireType, s: bytes): Read<()> {
    match Find(d, tag)
    case None => SkipUnknown(d, tag, wt, s)
    case Some(f) => SkipRecord(f, wt, s)
  }

  /** A byte string that is one record: a tag that is no terminator and exactly its payload. */
  predicate IsRecord(d: Desc, r: bytes) {
    var t := ReadTag(r);
    t.Tag? && SkipPayload(d, t.tag, t.wt, t.rest) == Got((), [])
  }

  predicate AreRecords(d: Desc, rs: seq<bytes>) {
    forall i | 0 <= i < |rs| :: IsRecord(d, rs[i])
  }

  function Concat(rs: seq<bytes>): bytes {
    if rs == [] then [] else rs[0] + Concat(rs[1..])
  }

  function FieldOf(d: Desc, r: bytes): Option<Field> {
    var t := ReadTag(r);
    if t.Tag? then Find(d, t.tag) else None
  }

  /** The record belongs to a field stored at `k`; the members of one oneof share their cell. */
  predicate StoredAt(d: Desc, r: bytes, k: nat) {
    FieldOf(d, r).Some? && FieldOf(d, r).value.storage == k
  }

  /** The records of one storage cell, in order. */
  function CellRecords(d: Desc, rs: seq<bytes>, k: nat): seq<bytes> {
    if rs == [] then []
    else (if StoredAt(d, rs[0], k) then [rs[0]] else []) + CellRecords(d, rs[1..], k)
  }

  /** One known record applied to its slot. */
  function ApplyRecord(d: Desc, slot: Slot, r: bytes): Read<Slot>
    requires FieldOf(d, r).Some?
  {
    DecodeSlot(FieldOf(d, r).value, ReadTag(r).wt, slot, ReadTag(r).rest)
  }

  /** The decoder of one cell. */
  function RunCell(d: Desc, slot: Slot, rs: seq<bytes>): Option<Slot>
    decreases |rs|
  {
    if rs == [] then Some(slot)
    else if FieldOf(d, rs[0]).None? then None
    else
      match ApplyRecord(d, slot, rs[0])
      case Fail => None
      case Got(slot', _) => RunCell(d, slot', rs[1..])
  }

  /** The decoder of a list of records. */
  function Run(d: Desc, m: Message, rs: seq<bytes>): Option<Message>
    decreases |rs|
  {
    if rs == [] then Some(m)
    else if FieldOf(d, rs[0]).None? then Run(d, m, rs[1..])
    else
      var k := FieldOf(d, rs[0]).value.storage;
      match ApplyRecord(d, SlotAt(m, k), rs[0])
      case Fail => None
      case Got(slot, _) => Run(d, Put(m, k, slot), rs[1..])
  }

  function KnownTags(d: Desc, rs: seq<bytes>): set<nat> {
    if rs == [] then {}
    else (if FieldOf(d, rs[0]).Some? then {FieldOf(d, rs[0]).value.tag} else {}) + KnownTags(d, rs[1..])
  }

  // ---- The byte-level loop runs the records ----

  lemma RecordPrefix(d: Desc, r: bytes, x: bytes)
    requires IsRecord(d, r)
    ensures r != []
    ensures ReadTag(r + x) == ReadTag(r).(rest := ReadTag(r).rest + x)
    ensures SkipPayload(d, ReadTag(r).tag, ReadTag(r).wt, ReadTag(r).rest + x) == Got((), x)
  {
    var t := ReadTag(r);
    TagExtend(r, x);
    UnknownFacts(d, t.tag, t.wt, t.rest, x);
    if FieldOf(d, r).Some? {
      SkipRecordFacts(FieldOf(d, r).value, t.wt, t.rest, x);
    }
    assert [] + x == x;
  }

  /** On well-framed records the loop is Run: both reject, or both accept with the same struct. */
  lemma {:induction false} LoopIsRun(d: Desc, m: Message, seen: set<nat>, rs: seq<bytes>)
    requires AreRecords(d, rs)
    ensures DecodeLoop(d, m, seen, Concat(rs))
         == match Run(d, m, rs)
            case None => Reject
            case Some(m') => Accept(m', seen + KnownTags(d, rs), true, [])
    decreases |rs|
  {
    if rs == [] {
      assert seen + KnownTags(d, rs) == seen;
    } else {
      var r, x := rs[0], Concat(rs[1..]);
      RecordPrefix(d, r, x);
      var t := ReadTag(r);
      assert AreRecords(d, rs[1..]);
      if FieldOf(d, r).None? {
        LoopIsRun(d, m, seen, rs[1..]);
        assert KnownTags(d, rs) == KnownTags(d, rs[1..]);
      } else {
        var f := FieldOf(d, r).value;
        SlotExtend(f, t.wt, SlotAt(m, f.storage), t.rest, x);
        var step := ApplyRecord(d, SlotAt(m, f.storage), r);
        if step.Got? {
          assert step.rest == [] && [] + x == x;
          LoopIsRun(d, Put(m, f.storage, step.value), seen + {t.tag}, rs[1..]);
          assert seen + {t.tag} + KnownTags(d, rs[1..]) == seen + KnownTags(d, rs);
        }
      }
    }
  }

  lemma FirstKnown(d: Desc, m: Message, seen: set<nat>, s: bytes, f: Field)
    returns (m': Message, seen': set<nat>, rest: bytes)
    requires s != [] && ReadTag(s).Tag? && Find(d, ReadTag(s).tag) == Some(f)
    requires DecodeLoop(d, m, seen, s).Accept?
    ensures DecodeLoop(d, m, seen, s) == DecodeLoop(d, m', seen', rest)
    ensures |rest| <= |ReadTag(s).rest| && rest == ReadTag(s).rest[|ReadTag(s).rest| - |rest|..]
    ensures SkipRecord(f, ReadTag(s).wt, ReadTag(s).rest) == Got((), rest)
  {
    var t := ReadTag(s);
    SkipRecordFacts(f, t.wt, t.rest, []);
    var step := DecodeSlot(f, t.wt, SlotAt(m, f.storage), t.rest);
    m', seen', rest := Put(m, f.storage, step.value), seen + {t.tag}, step.rest;
  }

  lemma FirstUnknown(d: Desc, m: Message, seen: set<nat>, s: bytes) returns (rest: bytes)
    requires s != [] && ReadTag(s).Tag? && Find(d, ReadTag(s).tag).None?
    requires DecodeLoop(d, m, seen, s).Accept?
    ensures DecodeLoop(d, m, seen, s) == DecodeLoop(d, m, seen, rest)
    ensures |rest| <= |ReadTag(s).rest| && rest == ReadTag(s).rest[|ReadTag(s).rest| - |rest|..]
    ensures SkipUnknown(d, ReadTag(s).tag, ReadTag(s).wt, ReadTag(s).rest) == Got((), rest)
  {
    var t := ReadTag(s);
    UnknownFacts(d, t.tag, t.wt, t.rest, []);
    var skipped := SkipUnknown(d, t.tag, t.wt, t.rest);
    assert skipped.value == ();
    rest := skipped.rest;
  }

  lemma TagProgress(s: bytes)
    requires ReadTag(s).Tag? || ReadTag(s).EndMark?
    ensures |ReadTag(s).rest| < |s| && ReadTag(s).rest == s[|s| - |ReadTag(s).rest|..]
  {
    Varint32Frame(s);
  }

  lemma SuffixOfSuffix(s: bytes, u: bytes, rest: bytes)
    requires |u| <= |s| && u == s[|s| - |u|..] && |rest| <= |u| && rest == u[|u| - |rest|..]
    ensures rest == s[|s| - |rest|..]
  {
  }

  /** The first iteration of an accepting loop: its record and the state it hands on. */
  lemma {:induction false} FirstStep(d: Desc, m: Message, seen: set<nat>, s: bytes)
    returns (m': Message, seen': set<nat>, rest: bytes)
    requires s != [] && ReadTag(s).Tag? && DecodeLoop(d, m, seen, s).Accept?
    ensures DecodeLoop(d, m, seen, s) == DecodeLoop(d, m', seen', rest)
    ensures |rest| <= |ReadTag(s).rest| < |s| && rest == s[|s| - |rest|..]
    ensures SkipPayload(d, ReadTag(s).tag, ReadTag(s).wt, ReadTag(s).rest) == Got((), rest)
  {
    TagProgress(s);
    match Find(d, ReadTag(s).tag) {
      case None =>
        m', seen' := m, seen;
        rest := FirstUnknown(d, m, seen, s);
      case Some(f) =>
        m', seen', rest := FirstKnown(d, m, seen, s, f);
    }
    SuffixOfSuffix(s, ReadTag(s).rest, rest);
  }

  /** What an accepting loop leaves is a suffix of its input: position plus bytes_left stays the same. */
  lemma {:induction false} LoopLeavesSuffix(d: Desc, m: Message, seen: set<nat>, s: bytes)
    requires DecodeLoop(d, m, seen, s).Accept?
    ensures IsSuffix(DecodeLoop(d, m, seen, s).rest, s)
    ensures DecodeLoop(d, m, seen, s).atEnd ==> DecodeLoop(d, m, seen, s).rest == []
    decreases |s|
  {
    if s != [] {
      if ReadTag(s).EndMark? {
        TagProgress(s);
      } else {
        var m', seen', rest := FirstStep(d, m, seen, s);
        LoopLeavesSuffix(d, m', seen', rest);
        SuffixOfSuffix(s, rest, DecodeLoop(d, m', seen', rest).rest);
      }
    }
  }

  predicate IsSuffix(rest: bytes, s: bytes) {
    |rest| <= |s| && rest == s[|s| - |rest|..]
  }

  /** Every input accepted without a terminator is a list of records. */
  lemma {:induction false} SplitAccepted(d: Desc, m: Message, seen: set<nat>, s: bytes) returns (rs: seq<bytes>)
    requires RunsToEnd(DecodeLoop(d, m, seen, s))
    ensures AreRecords(d, rs) && Concat(rs) == s
    decreases |s|
  {
    if s == [] {
      rs := [];
    } else {
      var m', seen', rest := FirstStep(d, m, seen, s);
      var tail := SplitAccepted(d, m', seen', rest);
      var r := s[..|s| - |rest|];
      assert s == r + rest;
      CutRecord(d, r, rest);
      rs := [r] + tail;
      assert rs[1..] == tail;
    }
  }

  // ---- Shortening the input to one record ----

  lemma {:induction false} SkipVarintShorten(s: bytes, x: bytes)
    requires SkipVarint(s + x).Got? && |SkipVarint(s + x).rest| >= |x|
    ensures SkipVarint(s).Got?
  {
    if s == [] {
      assert s + x == x;
      SkipVarintProgress(x);
      assert false;
    } else if s[0] >= 128 {
      assert (s + x)[1..] == s[1..] + x;
      SkipVarintShorten(s[1..], x);
    }
  }

  lemma Varint32Shorten(s: bytes, x: bytes)
    requires ReadVarint32(s + x).Got? && |ReadVarint32(s + x).rest| >= |x|
    ensures ReadVarint32(s).Got?
  {
    Varint32Frame(s + x);
    SkipVarintShorten(s, x);
    VarintExtend(s, x);
  }

  lemma SkipStringShorten(s: bytes, x: bytes)
    requires SkipString(s + x).Got? && |SkipString(s + x).rest| >= |x|
    ensures SkipString(s).Got?
  {
    Varint32Shorten(s, x);
    Varint32Frame(s);
    VarintExtend(s, x);
  }

  lemma PayloadShorten(d: Desc, tag: nat, wt: WireType, s: bytes, x: bytes)
    requires SkipPayload(d, tag, wt, s + x).Got? && |SkipPayload(d, tag, wt, s + x).rest| >= |x|
    ensures SkipPayload(d, tag, wt, s).Got?
  {
    if ReadVarint32(s + x).Got? && |ReadVarint32(s + x).rest| >= |x| {
      Varint32Shorten(s, x);
    }
    if SkipVarint(s + x).Got? && |SkipVarint(s + x).rest| >= |x| {
      SkipVarintShorten(s, x);
    }
    if SkipString(s + x).Got? && |SkipString(s + x).rest| >= |x| {
      SkipStringShorten(s, x);
    }
  }

  /** The bytes a record takes are a record by themselves. */
  lemma CutRecord(d: Desc, r: bytes, x: bytes)
    requires var t := ReadTag(r + x); t.Tag? && SkipPayload(d, t.tag, t.wt, t.rest) == Got((), x)
    requires |ReadTag(r + x).rest| >= |x|
    ensures IsRecord(d, r)
  {
    var t := ReadTag(r + x);
    Varint32Shorten(r, x);
    TagExtend(r, x);
    var u := ReadTag(r);
    assert t.rest == u.rest + x;
    PayloadShorten(d, t.tag, t.wt, u.rest, x);
    UnknownFacts(d, t.tag, t.wt, u.rest, x);
    if FieldOf(d, r).Some? {
      SkipRecordFacts(FieldOf(d, r).value, t.wt, u.rest, x);
    }
    var p := SkipPayload(d, t.tag, t.wt, u.rest);
    assert p.rest + x == x;
    assert |p.rest| == 0;
  }

  // ---- The decoder is the product of its cells ----

  /** Every cell a known record can touch exists in the struct. */
  predicate HasCells(d: Desc, m: Message) {
    forall i | 0 <= i < |d.fields| :: d.fields[i].storage in m.slots
  }

  lemma KnownCell(d: Desc, m: Message, r: bytes)
    requires HasCells(d, m) && FieldOf(d, r).Some?
    ensures FieldOf(d, r).value.storage in m.slots
  {
    var p := FindFrom(d, ReadTag(r).tag, 0);
    assert d.fields[p] == FieldOf(d, r).value;
  }

  /** Each cell of an accepted run is its own decoder on its own records. */
  lemma {:induction false} RunGivesCells(d: Desc, m: Message, rs: seq<bytes>, k: nat)
    requires HasCells(d, m) && Run(d, m, rs).Some?
    ensures Run(d, m, rs).value.slots.Keys == m.slots.Keys
    ensures RunCell(d, SlotAt(m, k), CellRecords(d, rs, k)) == Some(SlotAt(Run(d, m, rs).value, k))
    decreases |rs|
  {
    if rs != [] {
      var r := rs[0];
      if FieldOf(d, r).None? {
        RunGivesCells(d, m, rs[1..], k);
        assert CellRecords(d, rs, k) == CellRecords(d, rs[1..], k);
      } else {
        KnownCell(d, m, r);
        var c := FieldOf(d, r).value.storage;
        var step := ApplyRecord(d, SlotAt(m, c), r);
        RunGivesCells(d, Put(m, c, step.value), rs[1..], k);
        if c == k {
          assert CellRecords(d, rs, k)[1..] == CellRecords(d, rs[1..], k);
        } else {
          assert CellRecords(d, rs, k) == CellRecords(d, rs[1..], k);
        }
      }
    }
  }

  predicate AllCellsRun(d: Desc, m: Message, rs: seq<bytes>) {
    forall i | 0 <= i < |d.fields| ::
      RunCell(d, SlotAt(m, d.fields[i].storage), CellRecords(d, rs, d.fields[i].storage)).Some?
  }

  /** If every cell accepts its own records, the run accepts them all. */
  lemma {:induction false} CellsGiveRun(d: Desc, m: Message, rs: seq<bytes>)
    requires AllCellsRun(d, m, rs)
    ensures Run(d, m, rs).Some?
    decreases |rs|
  {
    if rs != [] {
      var r := rs[0];
      if FieldOf(d, r).None? {
        forall k: nat ensures CellRecords(d, rs, k) == CellRecords(d, rs[1..], k) {}
        CellsGiveRun(d, m, rs[1..]);
      } else {
        var p := FindFrom(d, ReadTag(r).tag, 0);
        var c := d.fields[p].storage;
        assert CellRecords(d, rs, c) == [r] + CellRecords(d, rs[1..], c);
        assert RunCell(d, SlotAt(m, c), CellRecords(d, rs, c)).Some?;
        assert CellRecords(d, rs, c)[1..] == CellRecords(d, rs[1..], c);
        var step := ApplyRecord(d, SlotAt(m, c), r);
        var m' := Put(m, c, step.value);
        forall i | 0 <= i < |d.fields|
          ensures RunCell(d, SlotAt(m', d.fields[i].storage), CellRecords(d, rs[1..], d.fields[i].storage)).Some?
        {
          var k := d.fields[i].storage;
          if k != c {
            assert CellRecords(d, rs, k) == CellRecords(d, rs[1..], k);
          }
        }
        CellsGiveRun(d, m', rs[1..]);
      }
    }
  }

  /** The two lists hold the same records for every field, in the same order. */
  predicate SameCells(d: Desc, rs: seq<bytes>, rs': seq<bytes>) {
    forall i | 0 <= i < |d.fields| ::
      CellRecords(d, rs, d.fields[i].storage) == CellRecords(d, rs', d.fields[i].storage)
  }

  lemma SameCellRecords(d: Desc, rs: seq<bytes>, rs': seq<bytes>, k: nat)
    requires SameCells(d, rs, rs')
    ensures CellRecords(d, rs, k) == CellRecords(d, rs', k)
  {
    if i :| 0 <= i < |d.fields| && d.fields[i].storage == k {
    } else {
      NoRecords(d, rs, k);
      NoRecords(d, rs', k);
    }
  }

  lemma SameSlots(a: Message, b: Message)
    requires a.slots.Keys == b.slots.Keys
    requires forall k: nat :: SlotAt(a, k) == SlotAt(b, k)
    ensures a == b
  {
    forall k | k in a.slots ensures a.slots[k] == b.slots[k] {
      assert SlotAt(a, k) == SlotAt(b, k);
    }
    assert a.slots == b.slots;
  }

  lemma SameCellsSameRun(d: Desc, m: Message, rs: seq<bytes>, rs': seq<bytes>)
    requires HasCells(d, m) && SameCells(d, rs, rs')
    requires Run(d, m, rs).Some?
    ensures Run(d, m, rs') == Run(d, m, rs)
  {
    var a := Run(d, m, rs).value;
    forall i | 0 <= i < |d.fields|
      ensures RunCell(d, SlotAt(m, d.fields[i].storage), CellRecords(d, rs', d.fields[i].storage)).Some?
    {
      RunGivesCells(d, m, rs, d.fields[i].storage);
    }
    CellsGiveRun(d, m, rs');
    var b := Run(d, m, rs').value;
    forall k: nat
      ensures SlotAt(a, k) == SlotAt(b, k)
    {
      SameCellRecords(d, rs, rs', k);
      RunGivesCells(d, m, rs, k);
      RunGivesCells(d, m, rs', k);
    }
    RunGivesCells(d, m, rs, 0);
    RunGivesCells(d, m, rs', 0);
    SameSlots(a, b);
  }

  lemma {:induction false} NoRecords(d: Desc, rs: seq<bytes>, k: nat)
    requires forall i :: 0 <= i < |d.fields| ==> d.fields[i].storage != k
    ensures CellRecords(d, rs, k) == []
  {
    if rs != [] {
      if FieldOf(d, rs[0]).Some? {
        var p := FindFrom(d, ReadTag(rs[0]).tag, 0);
        assert FieldOf(d, rs[0]).value == d.fields[p];
      }
      NoRecords(d, rs[1..], k);
    }
  }

  lemma {:induction false} TagInCell(d: Desc, rs: seq<bytes>, tag: nat, k: nat)
    requires Find(d, tag).Some? && Find(d, tag).value.storage == k
    ensures tag in KnownTags(d, rs) <==> tag in KnownTags(d, CellRecords(d, rs, k))
  {
    if rs != [] {
      TagInCell(d, rs[1..], tag, k);
      if StoredAt(d, rs[0], k) {
        assert CellRecords(d, rs, k)[1..] == CellRecords(d, rs[1..], k);
      } else {
        assert CellRecords(d, rs, k) == CellRecords(d, rs[1..], k);
      }
    }
  }

  lemma SameCellsSameRequired(d: Desc, rs: seq<bytes>, rs': seq<bytes>)
    requires WellFormed(d) && SameCells(d, rs, rs')
    ensures RequiredSeen(d, KnownTags(d, rs)) <==> RequiredSeen(d, KnownTags(d, rs'))
  {
    forall i | 0 <= i < |d.fields|
      ensures d.fields[i].tag in KnownTags(d, rs) <==> d.fields[i].tag in KnownTags(d, rs')
    {
      FindField(d, i);
      TagInCell(d, rs, d.fields[i].tag, d.fields[i].storage);
      TagInCell(d, rs', d.fields[i].tag, d.fields[i].storage);
    }
  }

  /**
   Field order does not matter: two record lists that agree on the records of every storage cell
   are both rejected, or both accepted with the same struct. Nothing is asked of unknown records.
   */
  lemma {:induction false} OrderIndependence(d: Desc, m: Message, rs: seq<bytes>, rs': seq<bytes>)
    requires WellFormed(d) && HasCells(d, m)
    requires AreRecords(d, rs) && AreRecords(d, rs') && SameCells(d, rs, rs')
    ensures DecodeNoInit(d, m, Concat(rs)) == DecodeNoInit(d, m, Concat(rs'))
  {
    LoopIsRun(d, m, {}, rs);
    LoopIsRun(d, m, {}, rs');
    assert {} + KnownTags(d, rs) == KnownTags(d, rs);
    assert {} + KnownTags(d, rs') == KnownTags(d, rs');
    SameCellsSameRequired(d, rs, rs');
    if Run(d, m, rs).Some? {
      SameCellsSameRun(d, m, rs, rs');
    } else if Run(d, m, rs').Some? {
      SameCellsSameRun(d, m, rs', rs);
    }
  }
}
