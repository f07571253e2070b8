/**
 The circular descriptor iterator. A pb_field_t table is a sequence of fields followed by a terminator
 with tag 0, so position |fields| of an empty table is the terminator itself.
 */
module FieldIter {
  import opened Basics
  import opened Descriptor
  import Decoder

  /** Only the terminator of a table has tag 0. */
  predicate Terminates(fields: seq<Field>) {
    forall i | 0 <= i < |fields| :: fields[i].tag != 0
  }

  predicate InTable(fields: seq<Field>, pos: nat) {
    pos < |fields| || (fields == [] && pos == 0)
  }

  function TagAt(fields: seq<Field>, pos: nat): nat {
    if pos < |fields| then fields[pos].tag else 0
  }

  predicate Matches(fields: seq<Field>, pos: nat, tag: nat) {
    TagAt(fields, pos) == tag && (pos < |fields| ==> !fields[pos].ltype.LExtension?)
  }

  /** The bytes a member takes in the struct. */
  function MemberSize(f: Field): nat {
    if f.htype.Repeated? then f.dataSize * f.arraySize else f.dataSize
  }

  /** A later member of a oneof starts where the previous one does. */
  predicate SharesUnion(fields: seq<Field>, i: nat)
    requires 0 < i < |fields|
  {
    fields[i - 1].htype.Oneof? && fields[i].htype.Oneof? && fields[i].dataOffset == SIZE_MAX
  }

  /** The address of a field's data as the steps from the start of the table compute it. */
  function Address(fields: seq<Field>, dest: nat, i: nat): nat {
    if i >= |fields| then dest
    else if i == 0 then dest + fields[0].dataOffset
    else if SharesUnion(fields, i) then Address(fields, dest, i - 1)
    else Address(fields, dest, i - 1) + MemberSize(fields[i - 1]) + fields[i].dataOffset
  }

  /** The address of its count or has_ field; inside a union the step leaves it as it is. */
  function SizeAddress(fields: seq<Field>, dest: nat, i: nat): int {
    if i >= |fields| then dest
    else if 0 < i && SharesUnion(fields, i) then SizeAddress(fields, dest, i - 1)
    else Address(fields, dest, i) + fields[i].sizeOffset
  }

  /** The position `k` steps after `start`, going around. */
  function Around(n: nat, start: nat, k: nat): int {
    if start + k < n then start + k else start + k - n
  }

  class FieldIterator {
    const fields: seq<Field>
    const dest: nat
    var pos: nat
    var requiredFieldIndex: nat
    var pData: nat
    var pSize: int

    /** Everything the iterator carries is a function of its position. */
    predicate Valid()
      reads this
    {
      && Terminates(fields)
      && InTable(fields, pos)
      && pData == Address(fields, dest, pos)
      && pSize == SizeAddress(fields, dest, pos)
      && requiredFieldIndex == Decoder.RequiredBefore(Desc(fields), pos)
    }

    /** pb_field_iter_begin */
    constructor (fields: seq<Field>, dest: nat)
      requires Terminates(fields)
      ensures Valid() && this.fields == fields && this.dest == dest && pos == 0
    {
      this.fields := fields;
      this.dest := dest;
      this.pos := 0;
      this.requiredFieldIndex := 0;
      this.pData := dest + if fields == [] then 0 else fields[0].dataOffset;
      this.pSize := dest + (if fields == [] then 0 else fields[0].dataOffset + fields[0].sizeOffset);
    }

    /** pb_field_iter_begin on an iterator in use; the result tells whether there are any fields. */
    method Begin() returns (more: bool)
      requires Terminates(fields)
      modifies this
      ensures Valid() && pos == 0
      ensures more <==> fields != []
    {
      pos := 0;
      requiredFieldIndex := 0;
      pData := dest + if fields == [] then 0 else fields[0].dataOffset;
      pSize := pData + if fields == [] then 0 else fields[0].sizeOffset;
      more := fields != [];
    }

    /** pb_field_iter_next */
    method Next() returns (more: bool)
      requires Valid()
      modifies this
      ensures Valid()
      ensures more <==> old(pos) + 1 < |fields|
      ensures pos == if more then old(pos) + 1 else 0
    {
      if TagAt(fields, pos) == 0 {
        return false;
      }
      var prev := fields[pos];
      pos := pos + 1;
      if TagAt(fields, pos) == 0 {
        var _ := Begin();
        return false;
      }
      var prevSize := prev.dataSize;
      if prev.htype.Oneof? && fields[pos].htype.Oneof? && fields[pos].dataOffset == SIZE_MAX {
        return true;
      } else if prev.htype.Repeated? {
        prevSize := prevSize * prev.arraySize;
      }
      if prev.htype.Required? {
        requiredFieldIndex := requiredFieldIndex + 1;
      }
      pData := pData + prevSize + fields[pos].dataOffset;
      pSize := pData + fields[pos].sizeOffset;
      return true;
    }

    /** pb_field_iter_find: at most one lap. */
    method Find(tag: nat) returns (found: bool)
      requires Valid()
      modifies this
      ensures Valid()
      ensures found <==> HasMatch(fields, tag)
      ensures found ==> Matches(fields, pos, tag)
      ensures !found ==> pos == old(pos)
    {
      var start := pos;
      ghost var k := 0;
      while true
        invariant Valid() && start == old(pos)
        invariant fields != [] ==> k < |fields| && pos == Around(|fields|, start, k)
        invariant fields == [] ==> k == 0 && pos == 0
        invariant forall j | 0 <= j < k :: !Matches(fields, Around(|fields|, start, j), tag)
        decreases |fields| - k
      {
        if TagAt(fields, pos) == tag && (pos < |fields| ==> !fields[pos].ltype.LExtension?) {
          assert Matches(fields, pos, tag);
          return true;
        }
        var _ := Next();
        k := k + 1;
        if pos == start {
          FullLap(fields, start, k, tag);
          return false;
        }
      }
    }
  }

  /** Some entry of the table matches; the terminator of an empty table matches tag 0. */
  predicate HasMatch(fields: seq<Field>, tag: nat) {
    (fields == [] && tag == 0) || exists i | 0 <= i < |fields| :: Matches(fields, i, tag)
  }

  /** Coming back to the start means every entry was looked at. */
  lemma FullLap(fields: seq<Field>, start: nat, k: nat, tag: nat)
    requires InTable(fields, start) && k >= 1
    requires if fields == [] then !Matches(fields, 0, tag)
             else k <= |fields| && start == Around(|fields|, start, k)
                  && forall j | 0 <= j < k :: !Matches(fields, Around(|fields|, start, j), tag)
    ensures !HasMatch(fields, tag)
  {
    if fields != [] {
      assert k == |fields|;
      forall i | 0 <= i < |fields| ensures !Matches(fields, i, tag) {
        var j := if i >= start then i - start else i + |fields| - start;
        assert Around(|fields|, start, j) == i;
      }
    }
  }

  /** For a well-formed descriptor the iterator finds exactly the field that Descriptor.Find names. */
  lemma FindAgrees(d: Desc, tag: nat, pos: nat)
    requires WellFormed(d)
    ensures d.fields != [] ==> (HasMatch(d.fields, tag) <==> Descriptor.Find(d, tag).Some?)
    ensures pos < |d.fields| && Matches(d.fields, pos, tag) ==> Descriptor.Find(d, tag) == Some(d.fields[pos])
  {
    forall i | 0 <= i < |d.fields| && Matches(d.fields, i, tag) ensures FindFrom(d, tag, 0) == i {
      FindFromFinds(d, 0, i);
    }
    var p := FindFrom(d, tag, 0);
    if p < |d.fields| {
      assert Matches(d.fields, p, tag);
    }
  }
}
