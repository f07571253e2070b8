/**
 Fields that an input does not mention: they keep what the struct held, after pb_decode their declared defaults; and a
 required field that is not mentioned makes the decoder reject.
 */
module Absence {
  import opened Basics
  import opened Wire
  import opened Descriptor
  import opened Decoder
  import opened Records

  /** No record is for a field stored at k. */
  predicate NoneStoredAt(d: Desc, rs: seq<bytes>, k: nat) {
    forall i | 0 <= i < |rs| :: !StoredAt(d, rs[i], k)
  }

  lemma {:induction false} NoCellRecords(d: Desc, rs: seq<bytes>, k: nat)
    requires NoneStoredAt(d, rs, k)
    ensures CellRecords(d, rs, k) == []
  {
    if rs != [] {
      NoCellRecords(d, rs[1..], k);
    }
  }

  /** No record carries this tag. */
  predicate NoneTagged(rs: seq<bytes>, tag: nat) {
    forall i | 0 <= i < |rs| :: ReadTag(rs[i]).Tag? ==> ReadTag(rs[i]).tag != tag
  }

  /** Outside a oneof, a cell belongs to one tag. */
  lemma OwnTagOnly(d: Desc, rs: seq<bytes>, i: nat)
    requires WellFormed(d) && i < |d.fields| && !d.fields[i].htype.Oneof? && NoneTagged(rs, d.fields[i].tag)
    ensures NoneStoredAt(d, rs, d.fields[i].storage)
  {
    forall j | 0 <= j < |rs| ensures !StoredAt(d, rs[j], d.fields[i].storage) {
      if FieldOf(d, rs[j]).Some? {
        var p := FindFrom(d, ReadTag(rs[j]).tag, 0);
        assert FieldOf(d, rs[j]).value == d.fields[p] && p != i;
      }
    }
  }

  /** An accepted input without a field's tag leaves what the struct held for it. */
  lemma UnmentionedIsKept(d: Desc, m: Message, rs: seq<bytes>, i: nat)
    requires WellFormed(d) && HasCells(d, m) && AreRecords(d, rs) && DecodeNoInit(d, m, Concat(rs)).Got?
    requires i < |d.fields| && !d.fields[i].htype.Oneof? && NoneTagged(rs, d.fields[i].tag)
    ensures SlotAt(DecodeNoInit(d, m, Concat(rs)).value, d.fields[i].storage) == SlotAt(m, d.fields[i].storage)
  {
    var k := d.fields[i].storage;
    LoopIsRun(d, m, {}, rs);
    OwnTagOnly(d, rs, i);
    NoCellRecords(d, rs, k);
    RunGivesCells(d, m, rs, k);
  }

  /** After pb_decode, a required or optional field that was not mentioned holds its declared default, or zero. */
  lemma UnmentionedIsDefault(d: Desc, rs: seq<bytes>, i: nat)
    requires WellFormed(d) && AreRecords(d, rs) && Decode(d, Concat(rs)).Got?
    requires i < |d.fields| && NoneTagged(rs, d.fields[i].tag)
    requires d.fields[i].htype.Required? || d.fields[i].htype.Optional?
    ensures var slot := SlotAt(Decode(d, Concat(rs)).value, d.fields[i].storage);
            && (slot.SValue? || slot.SOptional?) && IsDefaultValue(d.fields[i], slot.v)
            && (d.fields[i].htype.Optional? && d.fields[i].sizeOffset != 0 ==> slot.SOptional? && !slot.has)
  {
    DefaultsHaveCells(d);
    UnmentionedIsKept(d, Defaults(d), rs, i);
    DefaultContents(d, i);
  }

  lemma DefaultsHaveCells(d: Desc)
    requires WellFormed(d)
    ensures HasCells(d, Defaults(d))
  {
    forall i | 0 <= i < |d.fields| ensures d.fields[i].storage in Defaults(d).slots {
      DefaultsUpToSlots(d, |d.fields|, i);
    }
  }

  lemma {:induction false} NotKnown(d: Desc, rs: seq<bytes>, tag: nat)
    requires NoneTagged(rs, tag)
    ensures tag !in KnownTags(d, rs)
  {
    if rs != [] {
      NotKnown(d, rs[1..], tag);
      if FieldOf(d, rs[0]).Some? {
        var p := FindFrom(d, ReadTag(rs[0]).tag, 0);
        assert FieldOf(d, rs[0]).value.tag == ReadTag(rs[0]).tag;
      }
    }
  }

  /** An input that does not mention a required field among the first 64 entries of the table is rejected. */
  lemma MissingRequired(d: Desc, m: Message, rs: seq<bytes>, i: nat)
    requires i < |d.fields| && i < 64 && d.fields[i].htype.Required?
    requires AreRecords(d, rs) && NoneTagged(rs, d.fields[i].tag)
    ensures DecodeNoInit(d, m, Concat(rs)) == Fail
  {
    LoopIsRun(d, m, {}, rs);
    NotKnown(d, rs, d.fields[i].tag);
    assert RequiredBefore(d, i) <= i;
  }
}
