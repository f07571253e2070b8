/**
 The struct behind a descriptor and the macros of pb.h that turn its layout into a pb_field_t table. The
 iterator works with offsets relative to the previous entry; here they lead back to the members themselves.
 */
module Layout {
  import opened Basics
  import opened Descriptor
  import opened FieldIter

  /** How a member is declared, and where its companion (has_, _count or which_) is. */
  datatype Rule =
    | RequiredRule
    | OptionalRule(hasOffset: nat)
    | SingularRule
    | RepeatedRule(countOffset: nat, elements: nat)
    | OneofRule(union: nat, whichOffset: nat)

  /** A member of the struct: `offset` is its offsetof, `size` the sizeof of one element. */
  datatype Member = Member(tag: nat, ltype: LType, rule: Rule, offset: nat, size: nat, storage: nat,
                           initial: Option<Value>)

  /** pb_membersize(st, m): sizeof the whole member */
  function SizeOf(m: Member): nat {
    if m.rule.RepeatedRule? then m.size * m.rule.elements else m.size
  }

  predicate SameUnion(a: Member, b: Member) {
    a.rule.OneofRule? && b.rule.OneofRule? && a.rule.union == b.rule.union
  }

  /**
   A struct as a compiler lays it out, with its members in declaration order: the members of one union start at one
   offset and share their which_ member; all others lie one behind the other without overlap, with any padding.
   */
  predicate IsStruct(ms: seq<Member>) {
    && (forall i | 0 <= i < |ms| :: ms[i].size > 0 && ms[i].offset + SizeOf(ms[i]) < SIZE_MAX)
    && (forall i, j | 0 <= i < j < |ms| ::
          if SameUnion(ms[i], ms[j]) then
            ms[i].offset == ms[j].offset && ms[i].rule.whichOffset == ms[j].rule.whichOffset
          else ms[i].offset + SizeOf(ms[i]) <= ms[j].offset)
  }

  // ---- The macros ----

  /** pb_arraysize(st, m) */
  function ArraySize(m: Member): nat
    requires m.size > 0
  {
    SizeOf(m) / m.size
  }

  /** pb_delta(st, m1, m2), on the offsets of the two members */
  function Delta(offset1: nat, offset2: nat): int {
    offset1 - offset2
  }

  /** PB_DATAOFFSET_OTHER(st, m1, m2) */
  function DataOffsetOther(m1: Member, m2: Member): int {
    m1.offset - m2.offset - SizeOf(m2)
  }

  /** The placement of the i-th entry: FIRST, UNION behind a member of the same oneof, or OTHER. */
  function DataOffset(ms: seq<Member>, i: nat): (fd: nat)
    requires IsStruct(ms) && i < |ms|
  {
    if i == 0 then ms[0].offset
    else if SameUnion(ms[i - 1], ms[i]) then SIZE_MAX
    else DataOffsetOther(ms[i], ms[i - 1])
  }

  /** PB_REQUIRED_STATIC */
  function RequiredStatic(m: Member, fd: nat): Field {
    Field(m.tag, Required, m.ltype, fd, 0, SizeOf(m), 0, m.storage, m.initial)
  }

  /** PB_OPTIONAL_STATIC */
  function OptionalStatic(m: Member, fd: nat): Field
    requires m.rule.OptionalRule?
  {
    Field(m.tag, Optional, m.ltype, fd, Delta(m.rule.hasOffset, m.offset), SizeOf(m), 0, m.storage, m.initial)
  }

  /** PB_SINGULAR_STATIC */
  function SingularStatic(m: Member, fd: nat): Field {
    Field(m.tag, Optional, m.ltype, fd, 0, SizeOf(m), 0, m.storage, m.initial)
  }

  /** PB_REPEATED_STATIC */
  function RepeatedStatic(m: Member, fd: nat): Field
    requires m.rule.RepeatedRule? && m.size > 0
  {
    Field(m.tag, Repeated, m.ltype, fd, Delta(m.rule.countOffset, m.offset), m.size, ArraySize(m), m.storage, m.initial)
  }

  /** PB_ONEOF_STATIC */
  function OneofStatic(m: Member, fd: nat): Field
    requires m.rule.OneofRule?
  {
    Field(m.tag, Oneof, m.ltype, fd, Delta(m.rule.whichOffset, m.offset), SizeOf(m), 0, m.storage, m.initial)
  }

  function Entry(m: Member, fd: nat): Field
    requires m.size > 0
  {
    match m.rule
    case RequiredRule => RequiredStatic(m, fd)
    case OptionalRule(_) => OptionalStatic(m, fd)
    case SingularRule => SingularStatic(m, fd)
    case RepeatedRule(_, _) => RepeatedStatic(m, fd)
    case OneofRule(_, _) => OneofStatic(m, fd)
  }

  /** The table generated for a struct */
  function Table(ms: seq<Member>): (fields: seq<Field>)
    requires IsStruct(ms)
    ensures |fields| == |ms|
  {
    seq(|ms|, i requires 0 <= i < |ms| => Entry(ms[i], DataOffset(ms, i)))
  }

  predicate IsEntry(ms: seq<Member>, fields: seq<Field>, i: nat)
    requires IsStruct(ms) && |fields| == |ms|
  {
    i < |ms| && fields[i] == Entry(ms[i], DataOffset(ms, i))
  }

  /** A table of pb_field_t as the macros fill it, entry by entry */
  predicate IsTable(ms: seq<Member>, fields: seq<Field>) {
    IsStruct(ms) && |fields| == |ms| && forall i | 0 <= i < |ms| :: IsEntry(ms, fields, i)
  }

  lemma TableIsTable(ms: seq<Member>)
    requires IsStruct(ms)
    ensures IsTable(ms, Table(ms))
  {
    forall i | 0 <= i < |ms| ensures IsEntry(ms, Table(ms), i) {
    }
  }

  // ---- Back to the members ----

  /** Where the iterator's pSize belongs: the companion, or the member itself when it has none. */
  function CompanionOffset(m: Member): nat {
    match m.rule
    case RequiredRule => m.offset
    case OptionalRule(hasOffset) => hasOffset
    case SingularRule => m.offset
    case RepeatedRule(countOffset, _) => countOffset
    case OneofRule(_, whichOffset) => whichOffset
  }

  lemma ProductMonotone(a: nat, x: int, y: int)
    requires x <= y
    ensures a * x <= a * y
  {
  }

  lemma DivideProduct(a: nat, b: nat)
    requires a > 0
    ensures a * b / a == b
  {
    var q := a * b / a;
    if q < b {
      ProductMonotone(a, q + 1, b);
    } else if b < q {
      ProductMonotone(a, b + 1, q);
    }
  }

  /** The size the iterator adds for an entry is the sizeof of the whole member. */
  lemma EntrySize(m: Member, fd: nat)
    requires m.size > 0
    ensures MemberSize(Entry(m, fd)) == SizeOf(m)
  {
    if m.rule.RepeatedRule? {
      DivideProduct(m.size, m.rule.elements);
    }
  }

  /** No offset but the one inside a union is the marker. */
  lemma MarkerMeansUnion(ms: seq<Member>, i: nat)
    requires IsStruct(ms) && 0 < i < |ms|
    ensures DataOffset(ms, i) == SIZE_MAX <==> SameUnion(ms[i - 1], ms[i])
  {
    assert ms[i].offset + SizeOf(ms[i]) < SIZE_MAX;
  }

  lemma EntryKind(m: Member, fd: nat)
    requires m.size > 0
    ensures Entry(m, fd).htype.Oneof? <==> m.rule.OneofRule?
    ensures Entry(m, fd).dataOffset == fd
    ensures m.offset + Entry(m, fd).sizeOffset == CompanionOffset(m)
  {
  }

  /** The iterator recognises exactly the entries placed inside a union. */
  lemma UnionsAreMarked(ms: seq<Member>, fields: seq<Field>, i: nat)
    requires IsTable(ms, fields) && 0 < i < |ms|
    ensures SharesUnion(fields, i) <==> SameUnion(ms[i - 1], ms[i])
  {
    assert IsEntry(ms, fields, i - 1) && IsEntry(ms, fields, i);
    EntryKind(ms[i - 1], DataOffset(ms, i - 1));
    EntryKind(ms[i], DataOffset(ms, i));
    MarkerMeansUnion(ms, i);
  }

  /** One step of the iterator goes from one member to the next. */
  lemma AddressStep(ms: seq<Member>, fields: seq<Field>, dest: nat, i: nat)
    requires IsTable(ms, fields) && 0 < i < |ms|
    requires Address(fields, dest, i - 1) == dest + ms[i - 1].offset
    requires SizeAddress(fields, dest, i - 1) == dest + CompanionOffset(ms[i - 1])
    ensures Address(fields, dest, i) == dest + ms[i].offset
    ensures SizeAddress(fields, dest, i) == dest + CompanionOffset(ms[i])
  {
    UnionsAreMarked(ms, fields, i);
    assert IsEntry(ms, fields, i - 1) && IsEntry(ms, fields, i);
    EntryKind(ms[i], DataOffset(ms, i));
    EntrySize(ms[i - 1], DataOffset(ms, i - 1));
    Neighbours(ms, i);
  }

  lemma Neighbours(ms: seq<Member>, i: nat)
    requires IsStruct(ms) && 0 < i < |ms|
    ensures SameUnion(ms[i - 1], ms[i]) ==>
              ms[i - 1].offset == ms[i].offset && CompanionOffset(ms[i - 1]) == CompanionOffset(ms[i])
    ensures !SameUnion(ms[i - 1], ms[i]) ==> DataOffset(ms, i) == ms[i].offset - ms[i - 1].offset - SizeOf(ms[i - 1])
  {
  }

  /**
   For every struct, the addresses computed step by step from the macro-built table are those of the members and
   of their has_, _count or which_ companions, also behind a oneof whose last member is not its largest.
   */
  lemma {:induction false} AddressesAreTrue(ms: seq<Member>, fields: seq<Field>, dest: nat, i: nat)
    requires IsTable(ms, fields) && i < |ms|
    ensures Address(fields, dest, i) == dest + ms[i].offset
    ensures SizeAddress(fields, dest, i) == dest + CompanionOffset(ms[i])
  {
    if i == 0 {
      assert IsEntry(ms, fields, 0);
      EntryKind(ms[0], DataOffset(ms, 0));
    } else {
      AddressesAreTrue(ms, fields, dest, i - 1);
      AddressStep(ms, fields, dest, i);
    }
  }

  /** Wherever begin, next and find have left it, the iterator points at the member it stands on and its companion. */
  lemma IteratorPointsAtMember(iter: FieldIterator, ms: seq<Member>)
    requires iter.Valid() && IsTable(ms, iter.fields) && iter.pos < |ms|
    ensures iter.pData == iter.dest + ms[iter.pos].offset
    ensures iter.pSize == iter.dest + CompanionOffset(ms[iter.pos])
  {
    AddressesAreTrue(ms, iter.fields, iter.dest, iter.pos);
  }

  /** A oneof whose last member is smaller than its first: the next entry makes up for the difference. */
  lemma BehindSmallLastMember()
    ensures var large := Member(1, LFixed64, OneofRule(0, 0), 8, 8, 1, None);
            var small := Member(2, LBool, OneofRule(0, 0), 8, 1, 1, None);
            var next := Member(3, LFixed32, RequiredRule, 16, 4, 2, None);
            && IsStruct([large, small, next])
            && Table([large, small, next])[2].dataOffset == 7
            && Address(Table([large, small, next]), 100, 2) == 116
  {
    var large := Member(1, LFixed64, OneofRule(0, 0), 8, 8, 1, None);
    var small := Member(2, LBool, OneofRule(0, 0), 8, 1, 1, None);
    var next := Member(3, LFixed32, RequiredRule, 16, 4, 2, None);
    assert !SameUnion(small, next);
    var ms := [large, small, next];
    TableIsTable(ms);
    AddressesAreTrue(ms, Table(ms), 100, 2);
    assert IsEntry(ms, Table(ms), 2);
  }
}
