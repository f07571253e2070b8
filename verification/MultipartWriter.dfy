/**
 MultipartFormData over streams: the in-memory encoder and the streaming writer, both reading the parts'
 body streams in whatever amounts these deliver, and writing in whatever amounts the output accepts.
 */
module MultipartWriter {
  import opened Basics
  import opened Multipart

  function Min(a: int, b: int): int {
    if a < b then a else b
  }

  /** The next amount a stream agrees to move, at most `most`; without a schedule it moves all. */
  function Amount(schedule: seq<nat>, most: nat): (n: nat)
    ensures n <= most
  {
    if schedule == [] then most else Min(schedule[0], most)
  }

  function Rest(schedule: seq<nat>): seq<nat> {
    if schedule == [] then [] else schedule[1..]
  }

  /** How much a reading loop gets out of `left` bytes: it ends at a read of no bytes. */
  function Extent(schedule: seq<nat>, left: nat, size: nat): (n: nat)
    ensures n <= left
    decreases left
  {
    var n := Amount(schedule, Min(size, left));
    if n == 0 then 0 else n + Extent(Rest(schedule), left - n, size)
  }

  /** No read comes back empty before the end. */
  predicate Steady(schedule: seq<nat>) {
    forall k | 0 <= k < |schedule| :: schedule[k] > 0
  }

  lemma {:induction false} SteadyExtent(schedule: seq<nat>, left: nat, size: nat)
    requires Steady(schedule) && size > 0
    ensures Extent(schedule, left, size) == left
    decreases left
  {
    var n := Amount(schedule, Min(size, left));
    if n > 0 {
      SteadyExtent(Rest(schedule), left - n, size);
    }
  }

  /** What a stream still has: the bytes up to its end or its error, which of the two it is, and how it delivers. */
  datatype Supply = Supply(rest: bytes, broken: bool, schedule: seq<nat>) {

    /** What a reading loop gets */
    function Ahead(size: nat): bytes {
      rest[..Extent(schedule, |rest|, size)]
    }

    /** What it leaves */
    function Behind(size: nat): bytes {
      rest[Extent(schedule, |rest|, size)..]
    }

    /** It meets the error. */
    predicate Breaks(size: nat) {
      broken && Behind(size) == []
    }

    function Without(n: nat): Supply
      requires n <= |rest|
    {
      Supply(rest[n..], broken, Rest(schedule))
    }

    /** One read takes the loop from one supply to the next that promises the same. */
    lemma ReadStep(size: nat, n: nat)
      requires n == Amount(schedule, Min(size, |rest|))
      ensures n > 0 ==> Ahead(size) == rest[..n] + Without(n).Ahead(size) && Behind(size) == Without(n).Behind(size)
      ensures n == 0 ==> Ahead(size) == [] && Behind(size) == rest == Without(n).rest
    {
    }
  }

  /** An input stream: any schedule of short or empty reads, and perhaps an error after some number of bytes. */
  class ByteSource {
    const content: bytes
    const end: nat
    var pos: nat
    var schedule: seq<nat>

    /** Reading stops at `end`, the end of the content or an error before it. */
    predicate Valid()
      reads this
    {
      pos <= end <= |content|
    }

    function Left(): Supply
      requires Valid()
      reads this
    {
      Supply(content[pos..end], end < |content|, schedule)
    }

    constructor (content: bytes, failsAt: Option<nat>, schedule: seq<nat>)
      ensures Valid() && this.content == content && pos == 0 && this.schedule == schedule
      ensures end == if failsAt.Some? && failsAt.value < |content| then failsAt.value else |content|
    {
      this.content := content;
      this.end := if failsAt.Some? && failsAt.value < |content| then failsAt.value else |content|;
      this.schedule := schedule;
      pos := 0;
    }

    predicate HasBytesAvailable()
      requires Valid()
      reads this
      ensures HasBytesAvailable() <==> Left().rest != [] || Left().broken
    {
      pos < |content|
    }

    method Read(buffer: array<byte>) returns (bytesRead: nat, error: bool)
      requires Valid() && buffer.Length > 0
      modifies this, buffer
      ensures Valid() && bytesRead == Amount(old(Left()).schedule, Min(buffer.Length, |old(Left()).rest|))
      ensures Left() == old(Left()).Without(bytesRead) && buffer[..bytesRead] == old(Left()).rest[..bytesRead]
      ensures error <==> old(Left()).rest == [] && old(Left()).broken
    {
      error := pos == end && end < |content|;
      bytesRead := Amount(schedule, Min(buffer.Length, end - pos));
      schedule := Rest(schedule);
      var i := 0;
      while i < bytesRead
        invariant i <= bytesRead
        invariant forall k | 0 <= k < i :: buffer[k] == content[pos + k]
        modifies buffer
      {
        buffer[i] := content[pos + i];
        i := i + 1;
      }
      assert forall k | 0 <= k < bytesRead :: content[pos..end][k] == content[pos + k];
      assert buffer[..bytesRead] == content[pos..end][..bytesRead];
      pos := pos + bytesRead;
    }
  }

  /** What an output stream can take: an amount of space, and perhaps an error at some point. */
  datatype Limits = Limits(capacity: nat, failsAt: Option<nat>) {

    /** Offering this many bytes in all meets no error. */
    predicate Accept(total: nat) {
      failsAt.Some? ==> Min(total, capacity) <= failsAt.value
    }

    function Taken(data: bytes): bytes {
      data[..Min(|data|, capacity)]
    }
  }

  /**
   What a writing call guarantees once `data` was offered in all: it succeeds exactly when its input was readable and
   the output met no error; then what fits was written, and in any case no more than a prefix.
   */
  predicate Offered(l: Limits, written: bytes, ok: bool, readable: bool, data: bytes) {
    && (ok <==> readable && l.Accept(|data|))
    && (ok ==> written == l.Taken(data))
    && written <= data
  }

  /** What failed part of the way fails as a whole. */
  lemma OfferedLess(l: Limits, written: bytes, readable: bool, data: bytes, readable': bool, whole: bytes)
    requires Offered(l, written, false, readable, data) && data <= whole && (readable' ==> readable)
    ensures Offered(l, written, false, readable', whole)
  {
  }

  /** An output stream with any schedule of short or empty writes */
  class ByteSink {
    const limits: Limits
    var written: bytes
    var schedule: seq<nat>

    constructor (limits: Limits, schedule: seq<nat>)
      ensures this.limits == limits && written == []
    {
      this.limits := limits;
      this.schedule := schedule;
      written := [];
    }

    predicate HasSpaceAvailable()
      reads this
    {
      |written| < limits.capacity
    }

    method Write(buffer: bytes) returns (bytesWritten: nat, error: bool)
      requires buffer != [] && HasSpaceAvailable() && limits.Accept(|written|)
      modifies this
      ensures error <==> limits.failsAt == Some(old(|written|))
      ensures error ==> bytesWritten == 0
      ensures bytesWritten <= Min(|buffer|, limits.capacity - old(|written|))
      ensures !error ==> limits.Accept(|written|)
      ensures !error && bytesWritten == 0 ==> |schedule| < old(|schedule|)
      ensures bytesWritten <= |buffer| && written == old(written) + buffer[..bytesWritten]
    {
      error := limits.failsAt == Some(|written|);
      bytesWritten := 0;
      if !error {
        var most := Min(|buffer|, limits.capacity - |written|);
        most := if limits.failsAt.Some? then Min(most, limits.failsAt.value - |written|) else most;
        bytesWritten := Amount(schedule, most);
        schedule := Rest(schedule);
        written := written + buffer[..bytesWritten];
      }
    }
  }

  class BodyPart {
    const headers: seq<Header>
    const bodyStream: ByteSource
    var hasInitialBoundary: bool
    var hasFinalBoundary: bool

    constructor (headers: seq<Header>, bodyStream: ByteSource)
      ensures this.headers == headers && this.bodyStream == bodyStream && !hasInitialBoundary && !hasFinalBoundary
    {
      this.headers := headers;
      this.bodyStream := bodyStream;
      hasInitialBoundary, hasFinalBoundary := false, false;
    }

    function Look(): Snapshot
      requires bodyStream.Valid()
      reads this, bodyStream
    {
      Snapshot(headers, bodyStream.pos, bodyStream.Left(), hasInitialBoundary, hasFinalBoundary)
    }
  }

  /** A part at one moment, with its stream at `pos` */
  datatype Snapshot = Snapshot(headers: seq<Header>, pos: nat, supply: Supply,
                               hasInitialBoundary: bool, hasFinalBoundary: bool) {

    /** What an encoding makes of it: the body is what the stream still delivers. */
    function Value(size: nat): Flagged {
      Flagged(Part(headers, supply.Ahead(size)), hasInitialBoundary, hasFinalBoundary)
    }

    /** Where it leaves the stream */
    function Reach(size: nat): nat {
      pos + |supply.Ahead(size)|
    }
  }

  /** What encode and writeEncodedData share, for one part: everything before the body stream and after it. */
  function Before(boundary: bytes, f: Flagged): bytes {
    (if f.hasInitialBoundary then InitialBoundary(boundary) else EncapsulatedBoundary(boundary))
        + HeaderLines(f.part.headers)
  }

  function Behind(boundary: bytes, f: Flagged): bytes {
    if f.hasFinalBoundary then FinalBoundary(boundary) else []
  }

  lemma PartPieces(boundary: bytes, f: Flagged)
    ensures EncodedPart(boundary, f) == Before(boundary, f) + f.part.body + Behind(boundary, f)
  {
    var initial := if f.hasInitialBoundary then InitialBoundary(boundary) else EncapsulatedBoundary(boundary);
    assert initial + (HeaderLines(f.part.headers) + f.part.body) == initial + HeaderLines(f.part.headers) + f.part.body;
  }

  // ---- One part into memory ----

  lemma Longer(a: bytes, b: bytes, c: bytes)
    ensures a + (b + c) == a + b + c && a + b <= a + (b + c)
  {
  }

  /** What one read of a loop delivers and leaves */
  predicate OneRead(left: Supply, chunk: bytes, error: bool, left': Supply, size: nat) {
    && left'.broken == left.broken
    && (error <==> left.rest == [] && left.broken)
    && (chunk == [] ==> left.Ahead(size) == [] && left.Behind(size) == left.rest == left'.rest)
    && (chunk != [] ==> left.Ahead(size) == chunk + left'.Ahead(size) && left.Behind(size) == left'.Behind(size)
                        && |left'.rest| < |left.rest|)
  }

  /** The read that both loops make, into a buffer of their own */
  method ReadChunk(stream: ByteSource, streamBufferSize: nat) returns (chunk: bytes, error: bool)
    requires stream.Valid() && streamBufferSize > 0
    modifies stream
    ensures stream.Valid() && OneRead(old(stream.Left()), chunk, error, stream.Left(), streamBufferSize)
  {
    var buffer := new byte[streamBufferSize] (_ => 0);
    ghost var left := stream.Left();
    var bytesRead;
    bytesRead, error := stream.Read(buffer);
    left.ReadStep(streamBufferSize, bytesRead);
    chunk := buffer[..bytesRead];
  }

  /** encodeBodyStream, from wherever the stream stands */
  method EncodeBodyStream(stream: ByteSource, streamBufferSize: nat) returns (ok: bool, encoded: bytes)
    requires stream.Valid() && streamBufferSize > 0
    modifies stream
    ensures stream.Valid()
    ensures ok <==> !old(stream.Left()).Breaks(streamBufferSize)
    ensures ok ==> encoded == old(stream.Left()).Ahead(streamBufferSize)
    ensures ok ==> stream.pos == old(stream.pos) + |old(stream.Left()).Ahead(streamBufferSize)|
  {
    encoded := [];
    ghost var start := stream.Left();
    while stream.HasBytesAvailable()
      invariant stream.Valid() && stream.Left().broken == start.broken
      invariant encoded + stream.Left().Ahead(streamBufferSize) == start.Ahead(streamBufferSize)
      invariant stream.Left().Behind(streamBufferSize) == start.Behind(streamBufferSize)
      decreases |stream.Left().rest|
    {
      var chunk, error := ReadChunk(stream, streamBufferSize);
      if error {
        return false, encoded;
      }
      if chunk != [] {
        Longer(encoded, chunk, stream.Left().Ahead(streamBufferSize));
        encoded := encoded + chunk;
      } else {
        break;
      }
    }
    return true, encoded;
  }

  /** encode(_ bodyPart:) */
  method EncodePart(boundary: bytes, part: BodyPart, streamBufferSize: nat) returns (ok: bool, encoded: bytes)
    requires part.bodyStream.Valid() && streamBufferSize > 0
    modifies part.bodyStream
    ensures part.bodyStream.Valid()
    ensures ok <==> !old(part.Look()).supply.Breaks(streamBufferSize)
    ensures ok ==> encoded == EncodedPart(boundary, old(part.Look()).Value(streamBufferSize))
    ensures ok ==> part.bodyStream.pos == old(part.Look()).Reach(streamBufferSize)
  {
    ghost var f := part.Look().Value(streamBufferSize);
    encoded := if part.hasInitialBoundary then InitialBoundary(boundary) else EncapsulatedBoundary(boundary);
    encoded := encoded + HeaderLines(part.headers);
    var body;
    ok, body := EncodeBodyStream(part.bodyStream, streamBufferSize);
    if !ok {
      return;
    }
    encoded := encoded + body;
    if part.hasFinalBoundary {
      encoded := encoded + FinalBoundary(boundary);
    }
    PartPieces(boundary, f);
  }

  // ---- One part onto a stream ----

  /** The buffered write loop. When the stream has no space left it stops without an error. */
  method WriteBuffer(data: bytes, sink: ByteSink, ghost before: bytes) returns (ok: bool)
    requires Offered(sink.limits, sink.written, true, true, before)
    modifies sink
    ensures Offered(sink.limits, sink.written, ok, true, before + data)
  {
    var buffer, bytesToWrite := data, |data|;
    ghost var l := sink.limits;
    while bytesToWrite > 0 && sink.HasSpaceAvailable()
      invariant bytesToWrite == |buffer| <= |data| && buffer == data[|data| - bytesToWrite..]
      invariant l.Accept(|sink.written|)
      invariant sink.written == (before + data)[..Min(|before| + |data| - bytesToWrite, l.capacity)]
      decreases bytesToWrite, |sink.schedule|
    {
      ghost var w := sink.written;
      var bytesWritten, error := sink.Write(buffer);
      if error {
        return false;
      }
      WriteMore(before, data, w, bytesToWrite, bytesWritten, l.capacity);
      bytesToWrite := bytesToWrite - bytesWritten;
      buffer := buffer[bytesWritten..];
    }
    return true;
  }

  lemma WriteMore(before: bytes, data: bytes, w: bytes, left: nat, n: nat, capacity: nat)
    requires n <= left <= |data| && |before| + |data| - left <= capacity
    requires w == (before + data)[..|before| + |data| - left] && |w| + n <= capacity
    ensures w + data[|data| - left..][..n] == (before + data)[..Min(|before| + |data| - (left - n), capacity)]
  {
  }

  /** One turn of the loop of writeBodyStream; `more` is false where the loop breaks. */
  method WriteChunk(stream: ByteSource, streamBufferSize: nat, sink: ByteSink, ghost before: bytes)
      returns (ok: bool, more: bool, ghost chunk: bytes)
    requires stream.Valid() && streamBufferSize > 0 && stream.HasBytesAvailable()
    requires Offered(sink.limits, sink.written, true, true, before)
    modifies stream, sink
    ensures stream.Valid() && stream.Left().broken == old(stream.Left()).broken
    ensures ok && more ==> |stream.Left().rest| < |old(stream.Left()).rest|
                           && old(stream.Left()).Ahead(streamBufferSize)
                           == chunk + stream.Left().Ahead(streamBufferSize)
                           && old(stream.Left()).Behind(streamBufferSize) == stream.Left().Behind(streamBufferSize)
    ensures ok && !more ==> !old(stream.Left()).Breaks(streamBufferSize)
                            && old(stream.Left()).Ahead(streamBufferSize) == chunk
                            && old(stream.Left()).Behind(streamBufferSize) == stream.Left().rest
    ensures ok ==> Offered(sink.limits, sink.written, true, true, before + chunk)
    ensures !ok ==> Offered(sink.limits, sink.written, false, !old(stream.Left()).Breaks(streamBufferSize),
                            before + old(stream.Left()).Ahead(streamBufferSize))
  {
    ghost var left := stream.Left();
    ghost var whole := left.Ahead(streamBufferSize);
    assert before + [] == before && before <= before + whole;
    var data, error := ReadChunk(stream, streamBufferSize);
    chunk := data;
    if error {
      return false, false, chunk;
    }
    if data == [] {
      return true, false, chunk;
    }
    more := true;
    ok := WriteBuffer(data, sink, before);
    if !ok {
      Longer(before, chunk, stream.Left().Ahead(streamBufferSize));
      OfferedLess(sink.limits, sink.written, true, before + chunk, !left.Breaks(streamBufferSize), before + whole);
    }
  }

  /** writeBodyStream, from wherever the stream stands */
  method WriteBodyStream(stream: ByteSource, streamBufferSize: nat, sink: ByteSink, ghost before: bytes)
      returns (ok: bool)
    requires stream.Valid() && streamBufferSize > 0
    requires Offered(sink.limits, sink.written, true, true, before)
    modifies stream, sink
    ensures stream.Valid()
    ensures Offered(sink.limits, sink.written, ok, !old(stream.Left()).Breaks(streamBufferSize),
                    before + old(stream.Left()).Ahead(streamBufferSize))
    ensures ok ==> stream.pos == old(stream.pos) + |old(stream.Left()).Ahead(streamBufferSize)|
  {
    ghost var start, done := stream.Left(), before;
    ok := true;
    while stream.HasBytesAvailable()
      invariant ok && stream.Valid() && stream.Left().broken == start.broken
      invariant done + stream.Left().Ahead(streamBufferSize) == before + start.Ahead(streamBufferSize)
      invariant stream.Left().Behind(streamBufferSize) == start.Behind(streamBufferSize)
      invariant Offered(sink.limits, sink.written, true, true, done)
      decreases |stream.Left().rest|
    {
      var more;
      ghost var chunk;
      ok, more, chunk := WriteChunk(stream, streamBufferSize, sink, done);
      if !ok {
        return;
      }
      Longer(done, chunk, stream.Left().Ahead(streamBufferSize));
      done := done + chunk;
      if !more {
        return;
      }
    }
    assert done + [] == done;
  }

  /** write(_ bodyPart:to:): initial boundary, headers, body stream, final boundary */
  method WritePart(boundary: bytes, part: BodyPart, streamBufferSize: nat, sink: ByteSink, ghost before: bytes)
      returns (ok: bool)
    requires part.bodyStream.Valid() && streamBufferSize > 0
    requires Offered(sink.limits, sink.written, true, true, before)
    modifies part.bodyStream, sink
    ensures part.bodyStream.Valid()
    ensures Offered(sink.limits, sink.written, ok, !old(part.Look()).supply.Breaks(streamBufferSize),
                    before + EncodedPart(boundary, old(part.Look()).Value(streamBufferSize)))
    ensures ok ==> part.bodyStream.pos == old(part.Look()).Reach(streamBufferSize)
  {
    ghost var f, l := part.Look().Value(streamBufferSize), sink.limits;
    ghost var readable := !part.Look().supply.Breaks(streamBufferSize);
    var initial := if part.hasInitialBoundary then InitialBoundary(boundary) else EncapsulatedBoundary(boundary);
    var headers := HeaderLines(part.headers);
    var last := if part.hasFinalBoundary then FinalBoundary(boundary) else [];
    ghost var whole := Grows(before, initial, headers, f.part.body, last);
    PartPieces(boundary, f);
    assert whole == before + EncodedPart(boundary, f);
    ok := WriteBuffer(initial, sink, before);
    if !ok {
      OfferedLess(l, sink.written, true, before + initial, readable, whole);
      return;
    }
    ok := WriteBuffer(headers, sink, before + initial);
    if !ok {
      OfferedLess(l, sink.written, true, before + initial + headers, readable, whole);
      return;
    }
    ok := WriteBodyStream(part.bodyStream, streamBufferSize, sink, before + initial + headers);
    if !ok {
      OfferedLess(l, sink.written, readable, before + initial + headers + f.part.body, readable, whole);
      return;
    }
    if part.hasFinalBoundary {
      ok := WriteBuffer(last, sink, before + initial + headers + f.part.body);
    }
  }

  /** The pieces of a part in order, each a prefix of the next */
  lemma Grows(before: bytes, a: bytes, b: bytes, c: bytes, d: bytes) returns (whole: bytes)
    ensures whole == before + (a + b + c + d) == before + a + b + c + d
    ensures before + a <= whole && before + a + b <= whole && before + a + b + c <= whole
    ensures d == [] ==> whole == before + a + b + c
  {
    whole := before + (a + b + c + d);
  }

  // ---- All parts ----

  /** Every part has a stream of its own, of which `place` knows whose it is; so the parts are separate objects too. */
  ghost predicate Placed(parts: seq<BodyPart>, place: map<ByteSource, nat>) {
    forall i | 0 <= i < |parts| :: parts[i].bodyStream in place && place[parts[i].bodyStream] == i
  }

  function ValuesOf(snaps: seq<Snapshot>, size: nat): (fs: seq<Flagged>)
    ensures |fs| == |snaps|
  {
    if snaps == [] then [] else [snaps[0].Value(size)] + ValuesOf(snaps[1..], size)
  }

  lemma {:induction false} ValueAt(snaps: seq<Snapshot>, size: nat, i: nat)
    requires i < |snaps|
    ensures ValuesOf(snaps, size)[i] == snaps[i].Value(size)
  {
    if i > 0 {
      ValueAt(snaps[1..], size, i - 1);
    }
  }

  predicate SomeBreak(snaps: seq<Snapshot>, size: nat) {
    exists i | 0 <= i < |snaps| :: snaps[i].supply.Breaks(size)
  }

  /** The i-th of n parts with the flags of its place added */
  function MarkedAt(snap: Snapshot, i: nat, n: nat): Snapshot {
    snap.(hasInitialBoundary := snap.hasInitialBoundary || i == 0,
          hasFinalBoundary := snap.hasFinalBoundary || i == n - 1)
  }

  predicate AreMarked(snaps: seq<Snapshot>, marked: seq<Snapshot>) {
    |marked| == |snaps| && forall i | 0 <= i < |snaps| :: marked[i] == MarkedAt(snaps[i], i, |snaps|)
  }

  lemma MarkedValues(snaps: seq<Snapshot>, marked: seq<Snapshot>, size: nat)
    requires AreMarked(snaps, marked)
    ensures ValuesOf(marked, size) == MarkEnds(ValuesOf(snaps, size))
  {
    forall i | 0 <= i < |snaps| ensures ValuesOf(marked, size)[i] == MarkEnds(ValuesOf(snaps, size))[i] {
      MarkEndsAt(ValuesOf(snaps, size), i);
      ValueAt(snaps, size, i);
      ValueAt(marked, size, i);
    }
  }

  /** What the turn of a part will encode, whether it will fail, and where it will leave the stream */
  datatype Plan = Plan(encoded: bytes, breaks: bool, reach: nat)

  function PlanFor(boundary: bytes, snap: Snapshot, size: nat): Plan {
    Plan(EncodedPart(boundary, snap.Value(size)), snap.supply.Breaks(size), snap.Reach(size))
  }

  predicate SomeBreaks(plans: seq<Plan>) {
    exists i | 0 <= i < |plans| :: plans[i].breaks
  }

  /** Part i is as its snapshot says. */
  predicate Stands(parts: seq<BodyPart>, snaps: seq<Snapshot>, i: nat)
    requires |parts| == |snaps|
    reads if i < |parts| then {parts[i], parts[i].bodyStream} else {}
  {
    i < |parts| && parts[i].bodyStream.Valid() && parts[i].Look() == snaps[i]
  }

  /** The plans are those for the snapshots. */
  predicate Chart(boundary: bytes, snaps: seq<Snapshot>, size: nat, plans: seq<Plan>) {
    && |plans| == |snaps|
    && forall i {:trigger PlanFor(boundary, snaps[i], size)} | 0 <= i < |snaps| ::
         plans[i] == PlanFor(boundary, snaps[i], size)
  }

  /** From one milestone to the next, on the way to the last */
  predicate Leg(done: seq<bytes>, plans: seq<Plan>, i: nat)
    requires |done| == |plans| + 1
  {
    i < |plans| && done[i + 1] == done[i] + plans[i].encoded <= done[|plans|]
  }

  lemma LegBehind(done: seq<bytes>, plans: seq<Plan>, i: nat, first: bytes)
    requires |done| == |plans| > 0 && i < |plans| - 1 && Leg(done, plans[1..], i)
    ensures Leg([first] + done, plans, i + 1)
  {
  }

  /** What is encoded before each part and at the end */
  lemma {:induction false} Milestones(boundary: bytes, fs: seq<Flagged>, plans: seq<Plan>, before: bytes)
      returns (done: seq<bytes>)
    requires |fs| == |plans| && forall i | 0 <= i < |fs| :: plans[i].encoded == EncodedPart(boundary, fs[i])
    ensures |done| == |plans| + 1 && done[0] == before && done[|plans|] == before + EncodedParts(boundary, fs)
    ensures forall i | 0 <= i < |plans| :: Leg(done, plans, i)
  {
    if fs == [] {
      done := [before];
    } else {
      var next := before + EncodedPart(boundary, fs[0]);
      var rest := Milestones(boundary, fs[1..], plans[1..], next);
      Longer(before, EncodedPart(boundary, fs[0]), EncodedParts(boundary, fs[1..]));
      done := [before] + rest;
      forall i | 0 <= i < |plans| ensures Leg(done, plans, i) {
        if i > 0 {
          LegBehind(rest, plans, i - 1, before);
        }
      }
    }
  }

  /** One turn of the loop of encode */
  method EncodeNext(boundary: bytes, parts: seq<BodyPart>, i: nat, streamBufferSize: nat, encoded: bytes,
                    ghost snaps: seq<Snapshot>, ghost plans: seq<Plan>, ghost done: seq<bytes>)
      returns (ok: bool, encoded': bytes)
    requires |done| == |plans| + 1 && Leg(done, plans, i) && encoded == done[i] && streamBufferSize > 0
    requires |snaps| == |parts| && Chart(boundary, snaps, streamBufferSize, plans) && Stands(parts, snaps, i)
    modifies parts[i].bodyStream
    ensures parts[i].bodyStream.Valid() && (ok <==> !plans[i].breaks)
    ensures ok ==> encoded' == done[i + 1] && parts[i].bodyStream.pos == plans[i].reach
  {
    assert plans[i] == PlanFor(boundary, snaps[i], streamBufferSize);
    var encodedData;
    ok, encodedData := EncodePart(boundary, parts[i], streamBufferSize);
    encoded' := encoded + encodedData;
  }

  /** The loop of encode */
  method EncodeAll(boundary: bytes, parts: seq<BodyPart>, streamBufferSize: nat,
                   ghost snaps: seq<Snapshot>, ghost plans: seq<Plan>, ghost done: seq<bytes>,
                   ghost place: map<ByteSource, nat>)
      returns (ok: bool, encoded: bytes)
    requires Placed(parts, place) && |parts| == |snaps| == |plans| && streamBufferSize > 0
    requires forall j | 0 <= j < |parts| :: parts[j].bodyStream.Valid()
    requires Chart(boundary, snaps, streamBufferSize, plans)
    requires forall j | 0 <= j < |parts| :: Stands(parts, snaps, j)
    requires |done| == |parts| + 1 && done[0] == [] && forall j | 0 <= j < |parts| :: Leg(done, plans, j)
    modifies place.Keys
    ensures forall j | 0 <= j < |parts| :: parts[j].bodyStream.Valid()
    ensures ok <==> !SomeBreaks(plans)
    ensures ok ==> encoded == done[|parts|]
    ensures ok ==> forall j | 0 <= j < |parts| :: parts[j].bodyStream.pos == plans[j].reach
  {
    encoded := [];
    var i := 0;
    while i < |parts|
      invariant i <= |parts| && encoded == done[i]
      invariant forall j | 0 <= j < |parts| :: parts[j].bodyStream.Valid()
      invariant forall j | i <= j < |parts| :: unchanged(parts[j].bodyStream)
      invariant forall j | 0 <= j < i :: !plans[j].breaks && parts[j].bodyStream.pos == plans[j].reach
    {
      assert old(Stands(parts, snaps, i)) && Leg(done, plans, i);
      ok, encoded := EncodeNext(boundary, parts, i, streamBufferSize, encoded, snaps, plans, done);
      if !ok {
        return;
      }
      i := i + 1;
    }
    return true, encoded;
  }

  /** One turn of the loop of writeEncodedData */
  method WriteNext(boundary: bytes, parts: seq<BodyPart>, i: nat, streamBufferSize: nat, sink: ByteSink,
                   ghost snaps: seq<Snapshot>, ghost plans: seq<Plan>, ghost done: seq<bytes>, ghost readable: bool)
      returns (ok: bool)
    requires |done| == |plans| + 1 && Leg(done, plans, i) && streamBufferSize > 0 && (readable ==> !plans[i].breaks)
    requires |snaps| == |parts| && Chart(boundary, snaps, streamBufferSize, plans) && Stands(parts, snaps, i)
    requires Offered(sink.limits, sink.written, true, true, done[i])
    modifies parts[i].bodyStream, sink
    ensures parts[i].bodyStream.Valid()
    ensures ok ==> !plans[i].breaks && parts[i].bodyStream.pos == plans[i].reach
    ensures ok ==> Offered(sink.limits, sink.written, true, true, done[i + 1])
    ensures !ok ==> Offered(sink.limits, sink.written, false, readable, done[|plans|])
  {
    assert plans[i] == PlanFor(boundary, snaps[i], streamBufferSize);
    ok := WritePart(boundary, parts[i], streamBufferSize, sink, done[i]);
    if !ok {
      OfferedLess(sink.limits, sink.written, !plans[i].breaks, done[i + 1], readable, done[|plans|]);
    }
  }

  /** The loop of writeEncodedData */
  method WriteAll(boundary: bytes, parts: seq<BodyPart>, streamBufferSize: nat, sink: ByteSink,
                  ghost snaps: seq<Snapshot>, ghost plans: seq<Plan>, ghost done: seq<bytes>,
                  ghost place: map<ByteSource, nat>, ghost readable: bool)
      returns (ok: bool)
    requires Placed(parts, place) && |parts| == |snaps| == |plans| && streamBufferSize > 0 && sink.written == []
    requires forall j | 0 <= j < |parts| :: parts[j].bodyStream.Valid()
    requires Chart(boundary, snaps, streamBufferSize, plans)
    requires forall j | 0 <= j < |parts| :: Stands(parts, snaps, j)
    requires |done| == |parts| + 1 && done[0] == [] && forall j | 0 <= j < |parts| :: Leg(done, plans, j)
    requires readable ==> forall j | 0 <= j < |parts| :: !plans[j].breaks
    modifies place.Keys, sink
    ensures forall j | 0 <= j < |parts| :: parts[j].bodyStream.Valid()
    ensures ok ==> Offered(sink.limits, sink.written, true, true, done[|parts|])
    ensures !ok ==> Offered(sink.limits, sink.written, false, readable, done[|parts|])
    ensures ok ==> forall j | 0 <= j < |parts| :: !plans[j].breaks && parts[j].bodyStream.pos == plans[j].reach
  {
    var i := 0;
    ok := true;
    while i < |parts|
      invariant ok && i <= |parts| && Offered(sink.limits, sink.written, true, true, done[i])
      invariant forall j | 0 <= j < |parts| :: parts[j].bodyStream.Valid()
      invariant forall j | i <= j < |parts| :: unchanged(parts[j].bodyStream)
      invariant forall j | 0 <= j < i :: !plans[j].breaks && parts[j].bodyStream.pos == plans[j].reach
    {
      assert old(Stands(parts, snaps, i)) && Leg(done, plans, i);
      ok := WriteNext(boundary, parts, i, streamBufferSize, sink, snaps, plans, done, readable);
      if !ok {
        return;
      }
      i := i + 1;
    }
  }

  // ---- The form ----

  lemma StandsLonger(parts: seq<BodyPart>, snaps: seq<Snapshot>, i: nat)
    requires |parts| == |snaps| > 0 && i < |parts| - 1
    requires Stands(parts[..|parts| - 1], snaps[..|parts| - 1], i)
    ensures Stands(parts, snaps, i)
  {
  }

  /** What the parts stand for at this moment */
  lemma {:induction false} TakeSnapshots(parts: seq<BodyPart>) returns (snaps: seq<Snapshot>)
    requires forall i | 0 <= i < |parts| :: parts[i].bodyStream.Valid()
    ensures |snaps| == |parts| && forall i | 0 <= i < |parts| :: Stands(parts, snaps, i)
  {
    snaps := [];
    if parts != [] {
      var n := |parts| - 1;
      var rest := TakeSnapshots(parts[..n]);
      snaps := rest + [parts[n].Look()];
      assert snaps[..n] == rest;
      forall i | 0 <= i < |parts| ensures Stands(parts, snaps, i) {
        if i < n {
          StandsLonger(parts, snaps, i);
        }
      }
    }
  }

  /** The route of both loops over parts that stand like this */
  lemma PlanAll(boundary: bytes, snaps: seq<Snapshot>, size: nat) returns (plans: seq<Plan>, done: seq<bytes>)
    ensures Chart(boundary, snaps, size, plans)
    ensures |done| == |plans| + 1 && done[0] == [] && forall i | 0 <= i < |plans| :: Leg(done, plans, i)
    ensures done[|plans|] == EncodedParts(boundary, ValuesOf(snaps, size))
  {
    plans := seq(|snaps|, i requires 0 <= i < |snaps| => PlanFor(boundary, snaps[i], size));
    forall i | 0 <= i < |snaps| ensures plans[i].encoded == EncodedPart(boundary, ValuesOf(snaps, size)[i]) {
      ValueAt(snaps, size, i);
    }
    done := Milestones(boundary, ValuesOf(snaps, size), plans, []);
  }

  predicate AllSteady(snaps: seq<Snapshot>) {
    forall i | 0 <= i < |snaps| :: Steady(snaps[i].supply.schedule)
  }

  /** The next encoding will find part i as the i-th of these. */
  predicate Finds(parts: seq<BodyPart>, size: nat, fs: seq<Flagged>, i: nat)
    reads if i < |parts| then {parts[i], parts[i].bodyStream} else {}
  {
    i < |parts| == |fs| && parts[i].bodyStream.Valid() && parts[i].Look().Value(size) == fs[i]
  }

  /** Reading a part without empty reads leaves it without a body. */
  lemma ReadingDrains(parts: seq<BodyPart>, size: nat, snaps: seq<Snapshot>, i: nat)
    requires size > 0 && |parts| == |snaps| && i < |parts| && parts[i].bodyStream.Valid()
    requires Steady(snaps[i].supply.schedule) && parts[i].bodyStream.pos == snaps[i].Reach(size)
    requires snaps[i].pos + |snaps[i].supply.rest| == parts[i].bodyStream.end
    requires snaps[i].headers == parts[i].headers
    requires snaps[i].hasInitialBoundary == parts[i].hasInitialBoundary
    requires snaps[i].hasFinalBoundary == parts[i].hasFinalBoundary
    ensures Finds(parts, size, Drained(ValuesOf(snaps, size)), i)
  {
    SteadyExtent(snaps[i].supply.schedule, |snaps[i].supply.rest|, size);
    ValueAt(snaps, size, i);
    DrainedAt(ValuesOf(snaps, size), i);
  }

  class MultipartFormData {
    const boundary: bytes
    const streamBufferSize: nat
    var bodyParts: seq<BodyPart>
    ghost var parts: set<BodyPart>
    ghost var place: map<ByteSource, nat>

    ghost predicate Valid()
      reads this, place.Keys
    {
      && streamBufferSize > 0 && Placed(bodyParts, place)
      && forall i | 0 <= i < |bodyParts| :: bodyParts[i] in parts && bodyParts[i].bodyStream.Valid()
    }

    constructor (boundary: bytes)
      ensures Valid() && this.boundary == boundary && bodyParts == [] && streamBufferSize == 1024
    {
      this.boundary := boundary;
      this.streamBufferSize := 1024;
      bodyParts, parts, place := [], {}, map[];
    }

    method Append(part: BodyPart)
      requires Valid() && part.bodyStream !in place && part.bodyStream.Valid()
      modifies this
      ensures Valid() && bodyParts == old(bodyParts) + [part]
    {
      parts, place := parts + {part}, place[part.bodyStream := |bodyParts|];
      bodyParts := bodyParts + [part];
    }

    /** The flags of the first and the last part: the next encoding finds the marked parts. */
    method SetFlags()
      requires Valid()
      modifies parts
      ensures Valid()
      ensures forall i | 0 <= i < |bodyParts| ::
                bodyParts[i].Look() == MarkedAt(old(bodyParts[i].Look()), i, |bodyParts|)
    {
      if bodyParts != [] {
        bodyParts[0].hasInitialBoundary := true;
        bodyParts[|bodyParts| - 1].hasFinalBoundary := true;
      }
    }

    /** SetFlags, and the route that both loops follow after it; `before` is what the parts stood for. */
    method Start()
        returns (ghost before: seq<Snapshot>, ghost snaps: seq<Snapshot>, ghost plans: seq<Plan>,
                 ghost done: seq<bytes>)
      requires Valid()
      modifies parts
      ensures Valid() && |before| == |snaps| == |plans| == |bodyParts|
      ensures forall i | 0 <= i < |bodyParts| :: old(Stands(bodyParts, before, i))
      ensures forall i | 0 <= i < |plans| ::
                plans[i].breaks == before[i].supply.Breaks(streamBufferSize)
                && plans[i].reach == before[i].Reach(streamBufferSize)
      ensures Chart(boundary, snaps, streamBufferSize, plans)
      ensures forall i | 0 <= i < |bodyParts| :: Stands(bodyParts, snaps, i)
      ensures ValuesOf(snaps, streamBufferSize) == MarkEnds(ValuesOf(before, streamBufferSize))
      ensures AllSteady(before) ==> AllSteady(snaps)
      ensures forall i | 0 <= i < |plans| :: plans[i].reach == snaps[i].Reach(streamBufferSize)
      ensures |done| == |plans| + 1 && done[0] == [] && forall i | 0 <= i < |plans| :: Leg(done, plans, i)
      ensures done[|plans|] == EncodedParts(boundary, MarkEnds(ValuesOf(before, streamBufferSize)))
    {
      before := TakeSnapshots(bodyParts);
      SetFlags();
      snaps := TakeSnapshots(bodyParts);
      forall i | 0 <= i < |bodyParts| ensures snaps[i] == MarkedAt(before[i], i, |before|) {
        assert old(Stands(bodyParts, before, i)) && Stands(bodyParts, snaps, i);
      }
      MarkedValues(before, snaps, streamBufferSize);
      plans, done := PlanAll(boundary, snaps, streamBufferSize);
      forall i | 0 <= i < |plans|
        ensures plans[i].breaks == before[i].supply.Breaks(streamBufferSize)
                && plans[i].reach == before[i].Reach(streamBufferSize)
      {
        assert plans[i] == PlanFor(boundary, snaps[i], streamBufferSize);
      }
    }

    /**
     encode: in memory, from wherever the body streams stand, `before` being what the parts stood for. It fails exactly
     when reading some stream does; otherwise it returns the encoding of the marked parts and leaves every stream where
     reading ended. When no read came back empty, that leaves the marked parts without their bodies, which is what
     Multipart.AfterUses says of an encoding.
     */
    method Encode() returns (ok: bool, encoded: bytes, ghost before: seq<Snapshot>)
      requires Valid()
      modifies parts, place.Keys
      ensures Valid() && |before| == |bodyParts| && forall i | 0 <= i < |bodyParts| :: old(Stands(bodyParts, before, i))
      ensures ok <==> !SomeBreak(before, streamBufferSize)
      ensures ok ==> encoded == EncodedParts(boundary, MarkEnds(ValuesOf(before, streamBufferSize)))
      ensures ok ==> forall i | 0 <= i < |bodyParts| :: bodyParts[i].bodyStream.pos == before[i].Reach(streamBufferSize)
      ensures ok && AllSteady(before) ==> forall i | 0 <= i < |bodyParts| ::
                Finds(bodyParts, streamBufferSize, Drained(MarkEnds(ValuesOf(before, streamBufferSize))), i)
    {
      ghost var snaps, plans, done;
      before, snaps, plans, done := Start();
      label Started:
      ok, encoded := EncodeAll(boundary, bodyParts, streamBufferSize, snaps, plans, done, place);
      if ok && AllSteady(before) {
        forall i | 0 <= i < |bodyParts|
          ensures Finds(bodyParts, streamBufferSize, Drained(ValuesOf(snaps, streamBufferSize)), i)
        {
          assert old@Started(Stands(bodyParts, snaps, i));
          ReadingDrains(bodyParts, streamBufferSize, snaps, i);
        }
      }
    }

    /**
     writeEncodedData: for any schedule of reads and writes, what it writes is what encode returns, cut off without an
     error where the output has no space left; after an error, what was written is a prefix of it.
     */
    method WriteEncodedData(sink: ByteSink) returns (ok: bool, ghost before: seq<Snapshot>)
      requires Valid() && sink.written == []
      modifies parts, place.Keys, sink
      ensures Valid() && |before| == |bodyParts| && forall i | 0 <= i < |bodyParts| :: old(Stands(bodyParts, before, i))
      ensures Offered(sink.limits, sink.written, ok, !SomeBreak(before, streamBufferSize),
                      EncodedParts(boundary, MarkEnds(ValuesOf(before, streamBufferSize))))
      ensures ok ==> forall i | 0 <= i < |bodyParts| :: bodyParts[i].bodyStream.pos == before[i].Reach(streamBufferSize)
    {
      ghost var snaps, plans, done;
      before, snaps, plans, done := Start();
      ok := WriteAll(boundary, bodyParts, streamBufferSize, sink, snaps, plans, done, place,
                     !SomeBreak(before, streamBufferSize));
    }
  }

  /** The output is complete exactly when the space was enough, although no error is reported otherwise. */
  lemma CompleteIfSpace(l: Limits, written: bytes, data: bytes)
    requires Offered(l, written, true, true, data)
    ensures written == data <==> |data| <= l.capacity
  {
  }

  /** Two bytes offered to a stream with space for one: no error, and one byte is lost. */
  lemma TruncatedWithoutError()
    ensures Offered(Limits(1, None), [65], true, true, [65, 66])
    ensures forall written: bytes :: Offered(Limits(1, None), written, true, true, [65, 66]) ==> written == [65]
  {
    assert [65, 66][..1] == [65];
  }
}
