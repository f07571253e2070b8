/**
 The bytes of a multipart/form-data body and how they are read back: the encoding of MultipartFormData as a
 function, and a reader that splits it at the delimiter of section 5.1.1 of RFC 2046.
 */
module Multipart {
  import opened Basics

  const CR: byte := 13
  const LF: byte := 10
  const COLON: byte := 58
  const SPACE: byte := 32
  const CRLF: bytes := [CR, LF]
  const DASHES: bytes := [45, 45]

  datatype Header = Header(name: bytes, value: bytes)

  datatype Part = Part(headers: seq<Header>, body: bytes)

  /** A body part with its boundary flags. */
  datatype Flagged = Flagged(part: Part, hasInitialBoundary: bool, hasFinalBoundary: bool)

  // ---- boundaryData ----

  function InitialBoundary(boundary: bytes): bytes {
    DASHES + boundary + CRLF
  }

  function EncapsulatedBoundary(boundary: bytes): bytes {
    CRLF + DASHES + boundary + CRLF
  }

  function FinalBoundary(boundary: bytes): bytes {
    CRLF + DASHES + boundary + DASHES + CRLF
  }

  // ---- encode ----

  function HeaderLines(headers: seq<Header>): bytes {
    if headers == [] then CRLF
    else headers[0].name + [COLON, SPACE] + headers[0].value + CRLF + HeaderLines(headers[1..])
  }

  /** Headers and body: what stands between two boundaries. */
  function Blob(p: Part): bytes {
    HeaderLines(p.headers) + p.body
  }

  function EncodedPart(boundary: bytes, f: Flagged): bytes {
    (if f.hasInitialBoundary then InitialBoundary(boundary) else EncapsulatedBoundary(boundary))
    + Blob(f.part)
    + (if f.hasFinalBoundary then FinalBoundary(boundary) else [])
  }

  function EncodedParts(boundary: bytes, parts: seq<Flagged>): bytes {
    if parts == [] then [] else EncodedPart(boundary, parts[0]) + EncodedParts(boundary, parts[1..])
  }

  /** The flags encode sets before it starts. */
  function MarkEnds(parts: seq<Flagged>): (r: seq<Flagged>)
    ensures |r| == |parts|
  {
    if parts == [] then []
    else
      var first := parts[0 := parts[0].(hasInitialBoundary := true)];
      first[|parts| - 1 := first[|parts| - 1].(hasFinalBoundary := true)]
  }

  lemma MarkEndsAt(parts: seq<Flagged>, i: nat)
    requires i < |parts|
    ensures MarkEnds(parts)[i] == Flagged(parts[i].part, parts[i].hasInitialBoundary || i == 0,
                                          parts[i].hasFinalBoundary || i == |parts| - 1)
  {
  }

  function Unflagged(parts: seq<Part>): (r: seq<Flagged>)
    ensures |r| == |parts|
  {
    seq(|parts|, i requires 0 <= i < |parts| => Flagged(parts[i], false, false))
  }

  // ---- The body as the standard describes it ----

  function Delimiter(boundary: bytes): bytes {
    CRLF + DASHES + boundary
  }

  /** Blobs separated and closed by the delimiter. */
  function Delimited(boundary: bytes, parts: seq<Part>): bytes
    requires parts != []
  {
    if |parts| == 1 then Blob(parts[0]) + Delimiter(boundary) + DASHES + CRLF
    else Blob(parts[0]) + Delimiter(boundary) + CRLF + Delimited(boundary, parts[1..])
  }

  function Whole(boundary: bytes, parts: seq<Part>): bytes {
    if parts == [] then [] else InitialBoundary(boundary) + Delimited(boundary, parts)
  }

  /** The boundary lines byte by byte: 13 and 10 end a line, 45 is a dash. */
  lemma BoundaryBytes(boundary: bytes)
    ensures InitialBoundary(boundary) == [45, 45] + boundary + [13, 10]
    ensures EncapsulatedBoundary(boundary) == [13, 10, 45, 45] + boundary + [13, 10]
    ensures FinalBoundary(boundary) == [13, 10, 45, 45] + boundary + [45, 45, 13, 10]
    ensures Delimiter(boundary) == [13, 10, 45, 45] + boundary
  {
    assert CRLF + DASHES == [13, 10, 45, 45] && DASHES + CRLF == [45, 45, 13, 10];
    assert FinalBoundary(boundary) == CRLF + DASHES + boundary + (DASHES + CRLF);
  }

  lemma OpeningLine(line: bytes, b: bytes, tail: bytes)
    requires line == CRLF + b
    ensures CRLF + (b + tail) == line + tail
  {
  }

  /**
   The dash-boundary line of section 5.1.1 of RFC 2046: preceded by a line end, it is the delimiter that separates all
   the blobs, followed by one.
   */
  lemma OpensWithDelimiter(boundary: bytes, parts: seq<Part>)
    requires parts != []
    ensures CRLF + Whole(boundary, parts) == Delimiter(boundary) + CRLF + Delimited(boundary, parts)
  {
    assert Delimiter(boundary) + CRLF == CRLF + InitialBoundary(boundary);
    OpeningLine(Delimiter(boundary) + CRLF, InitialBoundary(boundary), Delimited(boundary, parts));
  }

  lemma Regroup(b: bytes, e: bytes, x: bytes, m: bytes, y: bytes, tail: bytes)
    requires tail == x + m + y
    ensures b + [] + (e + x + m + y) == b + e + tail
  {
  }

  lemma ClosingBoundary(b: bytes, boundary: bytes)
    ensures b + FinalBoundary(boundary) + [] == b + Delimiter(boundary) + DASHES + CRLF
  {
  }

  lemma InnerBoundary(b: bytes, boundary: bytes, tail: bytes)
    ensures b + EncapsulatedBoundary(boundary) + tail == b + Delimiter(boundary) + CRLF + tail
  {
  }

  /** What follows the first blob when the last part closes the body. */
  lemma {:induction false} TailIsDelimited(boundary: bytes, p: Part, parts: seq<Flagged>, rest: seq<Part>)
    requires |parts| == |rest|
    requires forall i | 0 <= i < |parts| :: parts[i] == Flagged(rest[i], false, i == |parts| - 1)
    ensures Blob(p) + (if parts == [] then FinalBoundary(boundary) else []) + EncodedParts(boundary, parts)
         == Delimited(boundary, [p] + rest)
    decreases |parts|
  {
    if parts == [] {
      assert [p] + rest == [p];
      ClosingBoundary(Blob(p), boundary);
    } else {
      var more := if parts[1..] == [] then FinalBoundary(boundary) else [];
      TailIsDelimited(boundary, rest[0], parts[1..], rest[1..]);
      assert [rest[0]] + rest[1..] == rest;
      assert ([p] + rest)[1..] == rest;
      Regroup(Blob(p), EncapsulatedBoundary(boundary), Blob(rest[0]), more, EncodedParts(boundary, parts[1..]),
              Delimited(boundary, rest));
      InnerBoundary(Blob(p), boundary, Delimited(boundary, rest));
    }
  }

  /** The parts without their flags */
  function PartsOf(fs: seq<Flagged>): (parts: seq<Part>)
    ensures |parts| == |fs|
    ensures forall i | 0 <= i < |fs| :: parts[i] == fs[i].part
  {
    if fs == [] then [] else [fs[0].part] + PartsOf(fs[1..])
  }

  /** Only the first part may be marked as the beginning. */
  predicate OnlyFirstInitial(fs: seq<Flagged>) {
    forall i | 0 < i < |fs| :: !fs[i].hasInitialBoundary
  }

  /** No part but the last is marked as the end. */
  predicate NoMiddleFinal(fs: seq<Flagged>) {
    forall i | 0 <= i < |fs| - 1 :: !fs[i].hasFinalBoundary
  }

  lemma SameParts(fs: seq<Flagged>, gs: seq<Flagged>)
    requires |fs| == |gs| && forall i | 0 <= i < |fs| :: fs[i].part == gs[i].part
    ensures PartsOf(fs) == PartsOf(gs)
  {
  }

  lemma MarkedFlags(fs: seq<Flagged>, gs: seq<Flagged>)
    requires |fs| == |gs| > 0
    requires forall i | 0 <= i < |fs| ::
               gs[i] == Flagged(fs[i].part, fs[i].hasInitialBoundary || i == 0, fs[i].hasFinalBoundary || i == |fs| - 1)
    ensures gs[0].hasInitialBoundary && gs[|fs| - 1].hasFinalBoundary
    ensures OnlyFirstInitial(gs) <==> OnlyFirstInitial(fs)
    ensures NoMiddleFinal(gs) <==> NoMiddleFinal(fs)
  {
    assert forall i | 0 < i < |fs| :: gs[i].hasInitialBoundary == fs[i].hasInitialBoundary;
    assert forall i | 0 <= i < |fs| - 1 :: gs[i].hasFinalBoundary == fs[i].hasFinalBoundary;
  }

  lemma MarkEndsFlags(fs: seq<Flagged>)
    requires fs != []
    ensures PartsOf(MarkEnds(fs)) == PartsOf(fs)
    ensures MarkEnds(fs)[0].hasInitialBoundary && MarkEnds(fs)[|fs| - 1].hasFinalBoundary
    ensures OnlyFirstInitial(MarkEnds(fs)) <==> OnlyFirstInitial(fs)
    ensures NoMiddleFinal(MarkEnds(fs)) <==> NoMiddleFinal(fs)
  {
    forall i | 0 <= i < |fs|
      ensures MarkEnds(fs)[i] == Flagged(fs[i].part, fs[i].hasInitialBoundary || i == 0,
                                         fs[i].hasFinalBoundary || i == |fs| - 1)
    {
      MarkEndsAt(fs, i);
    }
    SameParts(fs, MarkEnds(fs));
    MarkedFlags(fs, MarkEnds(fs));
  }

  lemma FirstGroup(a: bytes, x: bytes, m: bytes, y: bytes)
    ensures a + x + m + y == a + (x + m + y)
  {
  }

  /** Marked at both ends and nowhere between, the parts give the body of the standard. */
  lemma CleanIsWhole(boundary: bytes, gs: seq<Flagged>)
    requires gs != [] && OnlyFirstInitial(gs) && NoMiddleFinal(gs)
    requires gs[0].hasInitialBoundary && gs[|gs| - 1].hasFinalBoundary
    ensures EncodedParts(boundary, gs) == Whole(boundary, PartsOf(gs))
  {
    var p, rest := gs[0].part, PartsOf(gs[1..]);
    TailIsDelimited(boundary, p, gs[1..], rest);
    assert PartsOf(gs) == [p] + rest;
    var more := if gs[1..] == [] then FinalBoundary(boundary) else [];
    FirstGroup(InitialBoundary(boundary), Blob(p), more, EncodedParts(boundary, gs[1..]));
  }

  /** The bytes of all final boundaries */
  function FinalBytes(boundary: bytes, fs: seq<Flagged>): nat {
    if fs == [] then 0
    else (if fs[0].hasFinalBoundary then |FinalBoundary(boundary)| else 0) + FinalBytes(boundary, fs[1..])
  }

  /** Every final boundary adds its bytes to those of the standard's body, which counts one. */
  lemma {:induction false} TailLength(boundary: bytes, p: Part, fs: seq<Flagged>)
    requires forall i | 0 <= i < |fs| :: !fs[i].hasInitialBoundary
    ensures |Blob(p)| + |EncodedParts(boundary, fs)| + |FinalBoundary(boundary)|
         == |Delimited(boundary, [p] + PartsOf(fs))| + FinalBytes(boundary, fs)
    decreases |fs|
  {
    if fs == [] {
      assert [p] + PartsOf(fs) == [p];
    } else {
      TailLength(boundary, fs[0].part, fs[1..]);
      assert PartsOf(fs) == [fs[0].part] + PartsOf(fs[1..]);
      assert ([p] + PartsOf(fs))[1..] == PartsOf(fs);
    }
  }

  lemma {:induction false} OneFinalBoundary(boundary: bytes, fs: seq<Flagged>)
    requires fs != [] && fs[|fs| - 1].hasFinalBoundary
    ensures FinalBytes(boundary, fs) >= |FinalBoundary(boundary)|
    ensures FinalBytes(boundary, fs) == |FinalBoundary(boundary)| <==> NoMiddleFinal(fs)
  {
    if |fs| > 1 {
      OneFinalBoundary(boundary, fs[1..]);
      assert NoMiddleFinal(fs) <==> !fs[0].hasFinalBoundary && NoMiddleFinal(fs[1..]) by {
        assert forall i | 0 < i < |fs| :: fs[i] == fs[1..][i - 1];
        assert forall i | 0 <= i < |fs| - 1 :: fs[1..][i] == fs[i + 1];
      }
    }
  }

  /**
   What encode gives for parts whose flags earlier encodings may have set: the body of the standard if and only if no
   part but the last is already marked as the end.
   */
  lemma EncodingIsWhole(boundary: bytes, fs: seq<Flagged>)
    requires OnlyFirstInitial(fs)
    ensures EncodedParts(boundary, MarkEnds(fs)) == Whole(boundary, PartsOf(fs)) <==> NoMiddleFinal(fs)
  {
    if fs != [] {
      var gs := MarkEnds(fs);
      MarkEndsFlags(fs);
      if NoMiddleFinal(fs) {
        CleanIsWhole(boundary, gs);
      } else {
        LongerThanWhole(boundary, gs);
      }
    }
  }

  lemma LongerThanWhole(boundary: bytes, gs: seq<Flagged>)
    requires gs != [] && OnlyFirstInitial(gs) && !NoMiddleFinal(gs)
    requires gs[0].hasInitialBoundary && gs[|gs| - 1].hasFinalBoundary
    ensures |EncodedParts(boundary, gs)| > |Whole(boundary, PartsOf(gs))|
  {
    TailLength(boundary, gs[0].part, gs[1..]);
    OneFinalBoundary(boundary, gs);
    assert PartsOf(gs) == [gs[0].part] + PartsOf(gs[1..]);
  }

  lemma UnflaggedIsClean(parts: seq<Part>)
    ensures OnlyFirstInitial(Unflagged(parts)) && NoMiddleFinal(Unflagged(parts))
    ensures PartsOf(Unflagged(parts)) == parts
  {
  }

  /** A single encoding of newly appended parts is exactly the body of the standard. */
  lemma FirstEncodingIsWhole(boundary: bytes, parts: seq<Part>)
    ensures EncodedParts(boundary, MarkEnds(Unflagged(parts))) == Whole(boundary, parts)
  {
    UnflaggedIsClean(parts);
    EncodingIsWhole(boundary, Unflagged(parts));
  }

  // ---- A form that is used again ----

  datatype Use = Append(part: Part) | Encode

  /** After an encoding that read every stream to its end, the flags stay and the bodies are gone. */
  function Drained(fs: seq<Flagged>): (r: seq<Flagged>)
    ensures |r| == |fs|
  {
    if fs == [] then [] else [fs[0].(part := fs[0].part.(body := []))] + Drained(fs[1..])
  }

  lemma {:induction false} DrainedAt(fs: seq<Flagged>, i: nat)
    requires i < |fs|
    ensures Drained(fs)[i] == fs[i].(part := fs[i].part.(body := []))
  {
    if i > 0 {
      DrainedAt(fs[1..], i - 1);
    }
  }

  /** The form after any appends and encodings */
  function AfterUses(uses: seq<Use>): seq<Flagged> {
    if uses == [] then []
    else
      var fs := AfterUses(uses[..|uses| - 1]);
      match uses[|uses| - 1]
      case Append(p) => fs + [Flagged(p, false, false)]
      case Encode => Drained(MarkEnds(fs))
  }

  /** Some part was appended, and the form encoded after that. */
  predicate EncodedOnce(uses: seq<Use>) {
    exists h, i | 0 <= h < i < |uses| :: uses[h].Append? && uses[i].Encode?
  }

  /** A part was appended to a form that had been encoded with parts in it. */
  predicate ReusedAfterEncoding(uses: seq<Use>) {
    exists j | 0 <= j < |uses| :: uses[j].Append? && EncodedOnce(uses[..j])
  }

  predicate HasAppend(uses: seq<Use>) {
    exists h | 0 <= h < |uses| :: uses[h].Append?
  }

  lemma HasAppendStep(init: seq<Use>, last: Use)
    ensures HasAppend(init + [last]) <==> HasAppend(init) || last.Append?
  {
    var uses := init + [last];
    assert uses[|init|] == last && forall h | 0 <= h < |init| :: uses[h] == init[h];
  }

  lemma EncodedStep(init: seq<Use>, last: Use)
    ensures EncodedOnce(init + [last]) <==> EncodedOnce(init) || (last.Encode? && HasAppend(init))
  {
    var uses := init + [last];
    assert uses[|init|] == last && forall h | 0 <= h < |init| :: uses[h] == init[h];
    if EncodedOnce(init) {
      var h, i :| 0 <= h < i < |init| && init[h].Append? && init[i].Encode?;
      assert uses[h].Append? && uses[i].Encode?;
    } else if last.Encode? && HasAppend(init) {
      var h :| 0 <= h < |init| && init[h].Append?;
      assert uses[h].Append? && uses[|init|].Encode?;
    }
  }

  lemma ReuseStep(init: seq<Use>, last: Use)
    ensures ReusedAfterEncoding(init + [last]) <==> ReusedAfterEncoding(init) || (last.Append? && EncodedOnce(init))
  {
    var uses := init + [last];
    assert uses[|init|] == last && uses[..|init|] == init;
    assert forall j | 0 <= j < |init| :: uses[j] == init[j] && uses[..j] == init[..j];
    if ReusedAfterEncoding(init) {
      var j :| 0 <= j < |init| && init[j].Append? && EncodedOnce(init[..j]);
      assert uses[j].Append?;
    }
  }

  predicate SomeFinal(fs: seq<Flagged>) {
    exists i | 0 <= i < |fs| :: fs[i].hasFinalBoundary
  }

  /**
   A final flag is set exactly when a form with parts was encoded, in the middle exactly when a part came after that.
   */
  lemma {:induction false} FlagsAfterUses(uses: seq<Use>)
    ensures OnlyFirstInitial(AfterUses(uses))
    ensures AfterUses(uses) != [] <==> HasAppend(uses)
    ensures SomeFinal(AfterUses(uses)) <==> EncodedOnce(uses)
    ensures NoMiddleFinal(AfterUses(uses)) <==> !ReusedAfterEncoding(uses)
    decreases |uses|
  {
    if uses != [] {
      var init, last := uses[..|uses| - 1], uses[|uses| - 1];
      FlagsAfterUses(init);
      assert uses == init + [last];
      HasAppendStep(init, last);
      EncodedStep(init, last);
      ReuseStep(init, last);
      if last.Append? {
        AppendFlags(AfterUses(init), last.part);
      } else if AfterUses(init) != [] {
        EncodeFlags(AfterUses(init));
      }
    }
  }

  lemma EncodeFlags(fs: seq<Flagged>)
    requires fs != []
    ensures var gs := Drained(MarkEnds(fs));
            && SomeFinal(gs)
            && (OnlyFirstInitial(gs) <==> OnlyFirstInitial(fs))
            && (NoMiddleFinal(gs) <==> NoMiddleFinal(fs))
  {
    MarkEndsFlags(fs);
    DrainedFlags(MarkEnds(fs));
    DrainedAt(MarkEnds(fs), |fs| - 1);
  }

  lemma AppendFlags(fs: seq<Flagged>, p: Part)
    requires OnlyFirstInitial(fs)
    ensures var gs := fs + [Flagged(p, false, false)];
            OnlyFirstInitial(gs) && (NoMiddleFinal(gs) <==> !SomeFinal(fs)) && (SomeFinal(gs) <==> SomeFinal(fs))
  {
    var gs := fs + [Flagged(p, false, false)];
    assert forall i | 0 <= i < |fs| :: gs[i] == fs[i];
    if SomeFinal(fs) {
      var i :| 0 <= i < |fs| && fs[i].hasFinalBoundary;
      assert gs[i].hasFinalBoundary;
    }
  }

  lemma DrainedFlags(fs: seq<Flagged>)
    ensures OnlyFirstInitial(Drained(fs)) <==> OnlyFirstInitial(fs)
    ensures NoMiddleFinal(Drained(fs)) <==> NoMiddleFinal(fs)
  {
    forall i | 0 <= i < |fs|
      ensures Drained(fs)[i].hasInitialBoundary == fs[i].hasInitialBoundary
      ensures Drained(fs)[i].hasFinalBoundary == fs[i].hasFinalBoundary
    {
      DrainedAt(fs, i);
    }
  }

  /**
   After any sequence of appends and encodings, the next encoding is the body of the standard for what the parts still
   hold, if and only if no part was appended to a form that had already been encoded with parts in it.
   */
  lemma ReusedFormIsWhole(boundary: bytes, uses: seq<Use>)
    ensures EncodedParts(boundary, MarkEnds(AfterUses(uses))) == Whole(boundary, PartsOf(AfterUses(uses)))
       <==> !ReusedAfterEncoding(uses)
  {
    FlagsAfterUses(uses);
    EncodingIsWhole(boundary, AfterUses(uses));
  }

  /** Append, encode, append, encode: the first part comes back without its body and with a final boundary behind it. */
  lemma SecondEncodingIsLonger(boundary: bytes, p: Part, q: Part)
    ensures AfterUses([Append(p), Encode, Append(q)])
         == [Flagged(Part(p.headers, []), true, true), Flagged(q, false, false)]
    ensures |EncodedParts(boundary, MarkEnds(AfterUses([Append(p), Encode, Append(q)])))|
          > |Whole(boundary, [Part(p.headers, []), q])|
  {
    var uses := [Append(p), Encode, Append(q)];
    assert uses[..2] == [Append(p), Encode] && uses[..2][..1] == [Append(p)] && [Append(p)][..0] == [];
    var fs := AfterUses(uses);
    assert AfterUses([Append(p)]) == [Flagged(p, false, false)];
    assert AfterUses(uses[..2]) == [Flagged(Part(p.headers, []), true, true)];
    MarkEndsFlags(fs);
    assert fs[0].hasFinalBoundary;
    LongerThanWhole(boundary, MarkEnds(fs));
    assert PartsOf(MarkEnds(fs)) == [Part(p.headers, []), q];
  }

  // ---- Reading it back ----

  predicate StartsWith(s: bytes, prefix: bytes) {
    |prefix| <= |s| && s[..|prefix|] == prefix
  }

  /** The first occurrence of d in s */
  function FirstIndex(s: bytes, d: bytes): (r: Option<nat>)
    ensures r.Some? ==> r.value + |d| <= |s|
  {
    if StartsWith(s, d) then Some(0)
    else if s == [] then None
    else
      match FirstIndex(s[1..], d)
      case None => None
      case Some(k) => Some(k + 1)
  }

  // The reader knows the bytes of the standard and none of the writer's functions.

  /** The blobs up to the closing delimiter, which must end the body. */
  function ReadBlobs(s: bytes, d: bytes): Option<seq<bytes>>
    requires d != []
    decreases |s|
  {
    match FirstIndex(s, d)
    case None => None
    case Some(k) =>
      var rest := s[k + |d|..];
      if rest == [45, 45, 13, 10] then Some([s[..k]])
      else if !StartsWith(rest, [13, 10]) then None
      else
        match ReadBlobs(rest[2..], d)
        case None => None
        case Some(blobs) => Some([s[..k]] + blobs)
  }

  function ReadBody(s: bytes, boundary: bytes): Option<seq<bytes>> {
    if s == [] then Some([])
    else if !StartsWith(s, [45, 45] + boundary + [13, 10]) then None
    else ReadBlobs(s[|boundary| + 4..], [13, 10, 45, 45] + boundary)
  }

  function Blobs(parts: seq<Part>): (r: seq<bytes>)
    ensures |r| == |parts|
  {
    seq(|parts|, i requires 0 <= i < |parts| => Blob(parts[i]))
  }

  /** The delimiter that ends the blob is the first one. */
  predicate EndsAtFirst(blob: bytes, d: bytes) {
    FirstIndex(blob + d, d) == Some(|blob|)
  }

  lemma {:induction false} FirstIndexBounded(s: bytes, d: bytes, k: nat)
    requires k + |d| <= |s| && s[k..k + |d|] == d
    ensures FirstIndex(s, d).Some? && FirstIndex(s, d).value <= k
  {
    if k > 0 && !StartsWith(s, d) {
      assert s[1..][k - 1..k - 1 + |d|] == s[k..k + |d|];
      FirstIndexBounded(s[1..], d, k - 1);
    }
  }

  lemma {:induction false} FirstIndexFound(s: bytes, d: bytes)
    requires FirstIndex(s, d).Some?
    ensures s[FirstIndex(s, d).value..FirstIndex(s, d).value + |d|] == d
  {
    if !StartsWith(s, d) {
      var k := FirstIndex(s[1..], d).value;
      FirstIndexFound(s[1..], d);
      assert s[k + 1..k + 1 + |d|] == s[1..][k..k + |d|];
    }
  }

  lemma FirstIndexLess(s: bytes, t: bytes, d: bytes, n: nat)
    requires |s| >= n && |t| >= n && s[..n] == t[..n]
    requires FirstIndex(s, d).Some? && FirstIndex(s, d).value + |d| <= n
    ensures FirstIndex(t, d).Some? && FirstIndex(t, d).value <= FirstIndex(s, d).value
  {
    var k := FirstIndex(s, d).value;
    FirstIndexFound(s, d);
    assert t[k..k + |d|] == t[..n][k..k + |d|] == s[..n][k..k + |d|] == s[k..k + |d|];
    FirstIndexBounded(t, d, k);
  }

  /** The first occurrence at or before the end of the blob does not depend on what comes after the delimiter. */
  lemma FirstIndexLocal(blob: bytes, d: bytes, rest: bytes)
    ensures FirstIndex(blob + d, d).Some? && FirstIndex(blob + d + rest, d) == FirstIndex(blob + d, d)
  {
    var a, b := blob + d, blob + d + rest;
    assert a[|blob|..|blob| + |d|] == d && a[..|a|] == a == b[..|a|];
    FirstIndexBounded(a, d, |blob|);
    FirstIndexLess(a, b, d, |a|);
    FirstIndexLess(b, a, d, |a|);
  }

  /** The reader on a blob that is followed by a delimiter: it takes the blob, or stops short inside it. */
  lemma ReadOne(blob: bytes, d: bytes, rest: bytes)
    requires d != []
    ensures EndsAtFirst(blob, d) ==>
              ReadBlobs(blob + d + rest, d)
              == if rest == [45, 45, 13, 10] then Some([blob])
                 else if !StartsWith(rest, [13, 10]) then None
                 else
                   match ReadBlobs(rest[2..], d)
                   case None => None
                   case Some(blobs) => Some([blob] + blobs)
    ensures !EndsAtFirst(blob, d) && ReadBlobs(blob + d + rest, d).Some? ==>
              ReadBlobs(blob + d + rest, d).value != [] && |ReadBlobs(blob + d + rest, d).value[0]| < |blob|
  {
    var s := blob + d + rest;
    FirstIndexLocal(blob, d, rest);
    assert s[|blob| + |d|..] == rest && s[..|blob|] == blob;
  }

  lemma ReadLast(boundary: bytes, parts: seq<Part>)
    requires |parts| == 1
    ensures ReadBlobs(Delimited(boundary, parts), Delimiter(boundary)) == Some(Blobs(parts))
       <==> EndsAtFirst(Blob(parts[0]), Delimiter(boundary))
  {
    var d, blob := Delimiter(boundary), Blob(parts[0]);
    assert Delimited(boundary, parts) == blob + d + (DASHES + CRLF);
    ReadOne(blob, d, DASHES + CRLF);
    assert DASHES + CRLF == [45, 45, 13, 10];
    assert Blobs(parts) == [blob];
  }

  lemma ReadMore(boundary: bytes, parts: seq<Part>)
    requires |parts| > 1
    ensures ReadBlobs(Delimited(boundary, parts), Delimiter(boundary)) == Some(Blobs(parts))
       <==> EndsAtFirst(Blob(parts[0]), Delimiter(boundary))
            && ReadBlobs(Delimited(boundary, parts[1..]), Delimiter(boundary)) == Some(Blobs(parts[1..]))
  {
    var d, blob, tail := Delimiter(boundary), Blob(parts[0]), Delimited(boundary, parts[1..]);
    assert Delimited(boundary, parts) == blob + d + (CRLF + tail);
    ReadOne(blob, d, CRLF + tail);
    assert (CRLF + tail)[0] == CR && (DASHES + CRLF)[0] != CR;
    assert (CRLF + tail)[..2] == CRLF && (CRLF + tail)[2..] == tail;
    PrependBlob(blob, ReadBlobs(tail, d), parts);
  }

  lemma {:induction false} ReadDelimited(boundary: bytes, parts: seq<Part>)
    requires parts != []
    ensures ReadBlobs(Delimited(boundary, parts), Delimiter(boundary)) == Some(Blobs(parts))
       <==> forall i | 0 <= i < |parts| :: EndsAtFirst(Blob(parts[i]), Delimiter(boundary))
  {
    if |parts| == 1 {
      ReadLast(boundary, parts);
    } else {
      ReadMore(boundary, parts);
      ReadDelimited(boundary, parts[1..]);
      TailBlobs(boundary, parts);
    }
  }

  lemma PrependBlob(blob: bytes, tail: Option<seq<bytes>>, parts: seq<Part>)
    requires parts != [] && blob == Blob(parts[0])
    ensures tail.Some? ==> (Some([blob] + tail.value) == Some(Blobs(parts)) <==> tail == Some(Blobs(parts[1..])))
    ensures Blobs(parts)[0] == blob
  {
    assert Blobs(parts) == [blob] + Blobs(parts[1..]);
    if tail.Some? && [blob] + tail.value == [blob] + Blobs(parts[1..]) {
      assert ([blob] + tail.value)[1..] == tail.value;
      assert ([blob] + Blobs(parts[1..]))[1..] == Blobs(parts[1..]);
    }
  }

  lemma TailBlobs(boundary: bytes, parts: seq<Part>)
    requires |parts| > 1
    ensures (forall i | 0 <= i < |parts| :: EndsAtFirst(Blob(parts[i]), Delimiter(boundary)))
       <==> EndsAtFirst(Blob(parts[0]), Delimiter(boundary))
            && forall i | 0 <= i < |parts[1..]| :: EndsAtFirst(Blob(parts[1..][i]), Delimiter(boundary))
  {
    var d := Delimiter(boundary);
    if EndsAtFirst(Blob(parts[0]), d) && forall i | 0 <= i < |parts[1..]| :: EndsAtFirst(Blob(parts[1..][i]), d) {
      forall i | 0 <= i < |parts| ensures EndsAtFirst(Blob(parts[i]), d) {
        if i > 0 {
          assert parts[i] == parts[1..][i - 1];
        }
      }
    }
  }

  /**
   Unique decoding: the parts' contents are read back from the encoded body if and only if no part contains
   the delimiter before its end.
   */
  lemma BodyReadsBack(boundary: bytes, parts: seq<Part>)
    ensures ReadBody(Whole(boundary, parts), boundary) == Some(Blobs(parts))
       <==> forall i | 0 <= i < |parts| :: EndsAtFirst(Blob(parts[i]), Delimiter(boundary))
  {
    if parts == [] {
      assert Blobs(parts) == [];
    } else {
      var init := InitialBoundary(boundary);
      var s := init + Delimited(boundary, parts);
      assert s[..|init|] == init && s[|init|..] == Delimited(boundary, parts);
      BoundaryBytes(boundary);
      ReadDelimited(boundary, parts);
    }
  }

  /** An occurrence of the delimiter that starts in the blob and reaches past its end needs a CR in the boundary. */
  lemma OverlapNeedsCr(blob: bytes, boundary: bytes, k: nat)
    requires k < |blob| < k + |Delimiter(boundary)|
    requires (blob + Delimiter(boundary))[k..][..|Delimiter(boundary)|] == Delimiter(boundary)
    ensures CR in boundary
  {
    var d := Delimiter(boundary);
    var s := blob + d;
    var i := |blob| - k;
    assert s[k..][..|d|][i] == s[|blob|] == CR;
    assert d[i] == CR && d[i] == boundary[i - 4];
  }

  /** A legal boundary has no CR; then the condition is that the delimiter occurs in no part. */
  lemma EndsAtFirstMeans(blob: bytes, boundary: bytes)
    requires CR !in boundary
    ensures EndsAtFirst(blob, Delimiter(boundary)) <==> FirstIndex(blob, Delimiter(boundary)).None?
  {
    var d := Delimiter(boundary);
    var s := blob + d;
    assert s[|blob|..|blob| + |d|] == d;
    FirstIndexBounded(s, d, |blob|);
    FirstIndexFound(s, d);
    var k := FirstIndex(s, d).value;
    if k < |blob| {
      assert s[k..][..|d|] == s[k..k + |d|];
      if k + |d| > |blob| {
        OverlapNeedsCr(blob, boundary, k);
      } else {
        assert blob[k..k + |d|] == s[k..k + |d|];
        FirstIndexBounded(blob, d, k);
      }
    } else if FirstIndex(blob, d).Some? {
      FirstIndexFound(blob, d);
      var j := FirstIndex(blob, d).value;
      assert s[j..j + |d|] == blob[j..j + |d|];
      FirstIndexBounded(s, d, j);
    }
  }

  // ---- Headers ----

  /** Header fields that stay on their line: no colon in the name, no CR in either half. */
  predicate PlainHeaders(headers: seq<Header>) {
    forall i | 0 <= i < |headers| ::
      COLON !in headers[i].name && CR !in headers[i].name && CR !in headers[i].value
  }

  function ReadHeaders(s: bytes): Option<Part>
    decreases |s|
  {
    if StartsWith(s, [13, 10]) then Some(Part([], s[2..]))
    else
      match FirstIndex(s, [58, 32])
      case None => None
      case Some(k) =>
        var line := s[k + 2..];
        match FirstIndex(line, [13, 10])
        case None => None
        case Some(n) =>
          match ReadHeaders(line[n + 2..])
          case None => None
          case Some(p) => Some(Part([Header(s[..k], line[..n])] + p.headers, p.body))
  }

  /** A separator whose first byte does not occur in a is found right after it. */
  lemma {:induction false} FirstAfter(a: bytes, d: bytes, rest: bytes)
    requires d != [] && d[0] !in a
    ensures FirstIndex(a + d + rest, d) == Some(|a|)
  {
    if a == [] {
      assert (a + d + rest)[..|d|] == d;
    } else {
      assert (a + d + rest)[0] == a[0];
      assert (a + d + rest)[1..] == a[1..] + d + rest;
      FirstAfter(a[1..], d, rest);
    }
  }

  lemma ReadLine(h: Header, rest: bytes)
    requires COLON !in h.name && CR !in h.name && CR !in h.value
    ensures ReadHeaders(h.name + [COLON, SPACE] + h.value + CRLF + rest)
         == match ReadHeaders(rest)
            case None => None
            case Some(p) => Some(Part([h] + p.headers, p.body))
  {
    var s, line := h.name + [COLON, SPACE] + h.value + CRLF + rest, h.value + CRLF + rest;
    assert s == h.name + [COLON, SPACE] + line;
    FirstAfter(h.name, [COLON, SPACE], line);
    assert s[|h.name| + 2..] == line && s[..|h.name|] == h.name;
    FirstAfter(h.value, CRLF, rest);
    assert line[|h.value| + 2..] == rest && line[..|h.value|] == h.value;
    assert !StartsWith(s, CRLF) by {
      assert s[0] == if h.name == [] then COLON else h.name[0];
    }
  }

  lemma {:induction false} HeadersReadBack(headers: seq<Header>, body: bytes)
    requires PlainHeaders(headers)
    ensures ReadHeaders(HeaderLines(headers) + body) == Some(Part(headers, body))
  {
    if headers == [] {
      assert (CRLF + body)[..2] == CRLF && (CRLF + body)[2..] == body;
    } else {
      HeadersReadBack(headers[1..], body);
      var rest := HeaderLines(headers[1..]) + body;
      assert HeaderLines(headers) + body
          == headers[0].name + [COLON, SPACE] + headers[0].value + CRLF + rest;
      ReadLine(headers[0], rest);
      assert [headers[0]] + headers[1..] == headers;
    }
  }

  /** With plain headers, a part is recovered from its blob: headers and body. */
  lemma PartReadsBack(p: Part)
    requires PlainHeaders(p.headers)
    ensures ReadHeaders(Blob(p)) == Some(p)
  {
    HeadersReadBack(p.headers, p.body);
  }

  function ReadParts(blobs: seq<bytes>): Option<seq<Part>> {
    if blobs == [] then Some([])
    else if ReadHeaders(blobs[0]).None? || ReadParts(blobs[1..]).None? then None
    else Some([ReadHeaders(blobs[0]).value] + ReadParts(blobs[1..]).value)
  }

  lemma ReadPartsStep(blob: bytes, blobs: seq<bytes>, p: Part, parts: seq<Part>)
    requires ReadHeaders(blob) == Some(p) && ReadParts(blobs) == Some(parts)
    ensures ReadParts([blob] + blobs) == Some([p] + parts)
  {
    assert ([blob] + blobs)[1..] == blobs;
  }

  lemma {:induction false} PartsReadBack(parts: seq<Part>)
    requires forall i | 0 <= i < |parts| :: PlainHeaders(parts[i].headers)
    ensures ReadParts(Blobs(parts)) == Some(parts)
  {
    if parts != [] {
      PartReadsBack(parts[0]);
      PartsReadBack(parts[1..]);
      ReadPartsStep(Blob(parts[0]), Blobs(parts[1..]), parts[0], parts[1..]);
      assert Blobs(parts) == [Blob(parts[0])] + Blobs(parts[1..]);
      assert [parts[0]] + parts[1..] == parts;
    }
  }

  /** The part list is recovered from a single encoding when the delimiter occurs in no part. */
  lemma EncodingReadsBack(boundary: bytes, parts: seq<Part>)
    requires CR !in boundary
    requires forall i | 0 <= i < |parts| :: PlainHeaders(parts[i].headers)
    requires forall i | 0 <= i < |parts| :: FirstIndex(Blob(parts[i]), Delimiter(boundary)).None?
    ensures ReadBody(EncodedParts(boundary, MarkEnds(Unflagged(parts))), boundary).Some?
    ensures ReadParts(ReadBody(EncodedParts(boundary, MarkEnds(Unflagged(parts))), boundary).value) == Some(parts)
  {
    forall i | 0 <= i < |parts| ensures EndsAtFirst(Blob(parts[i]), Delimiter(boundary)) {
      EndsAtFirstMeans(Blob(parts[i]), boundary);
    }
    FirstEncodingIsWhole(boundary, parts);
    BodyReadsBack(boundary, parts);
    PartsReadBack(parts);
  }
}
