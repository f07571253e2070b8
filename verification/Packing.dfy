/**
 Packed and unpacked arrays: any split of a scalar array into packed chunks, empty ones included, and
 single elements decodes to the concatenated array, and overflows exactly when array_size is exceeded.
 */
module Packing {
  import opened Basics
  import opened Bits
  import opened Wire
  import opened Descriptor
  import opened Scalars
  import opened Decoder
  import opened Encoder
  import opened RoundTrip

  datatype Chunk = Packed(items: seq<Value>) | Single(item: Value)

  function ChunkItems(c: Chunk): seq<Value> {
    if c.Packed? then c.items else [c.item]
  }

  function AllItems(cs: seq<Chunk>): seq<Value> {
    if cs == [] then [] else ChunkItems(cs[0]) + AllItems(cs[1..])
  }

  /** One record: a length-delimited frame of elements, or one element under its own wire type. */
  function ChunkBytes(f: Field, c: Chunk): bytes {
    match c
    case Packed(items) => TagBytes(f.tag, LengthDelimited) + Blob(EncodePacked(f, items))
    case Single(v) => TagFor(f) + EncodeScalar(f, v)
  }

  function ChunkWire(f: Field, c: Chunk): WireType {
    if c.Packed? then LengthDelimited else WireTypeFor(f.ltype)
  }

  function ChunkPayload(f: Field, c: Chunk): bytes {
    if c.Packed? then Blob(EncodePacked(f, c.items)) else EncodeScalar(f, c.item)
  }

  function WireBytes(f: Field, cs: seq<Chunk>): bytes {
    if cs == [] then [] else ChunkBytes(f, cs[0]) + WireBytes(f, cs[1..])
  }

  predicate ChunkShape(f: Field, c: Chunk) {
    && (forall i | 0 <= i < |ChunkItems(c)| :: ScalarShape(f, ChunkItems(c)[i]))
    && |ChunkBytes(f, c)| < TWO32
  }

  predicate ArrayField(d: Desc, f: Field) {
    WellFormedField(f) && f.htype.Repeated? && Packable(f.ltype) && Find(d, f.tag) == Some(f)
  }

  /** A packed frame is taken whole or rejected, depending only on how many elements it adds. */
  lemma {:induction false} PackedFrame(f: Field, done: seq<Value>, items: seq<Value>)
    requires WellFormedField(f) && Packable(f.ltype) && |done| <= f.arraySize
    requires forall i | 0 <= i < |items| :: ScalarShape(f, items[i])
    requires |EncodePacked(f, items)| < TWO32
    ensures DecodePacked(f, done, EncodePacked(f, items))
         == if |done| + |items| <= f.arraySize then Some(done + items) else None
    decreases |items|
  {
    if items == [] {
      assert done + items == done;
    } else {
      var v, t := items[0], EncodePacked(f, items[1..]);
      EncodedScalarNonEmpty(f, v);
      if |done| < f.arraySize {
        ScalarRoundTrip(f, v, t);
        PackedFrame(f, done + [v], items[1..]);
        assert done + [v] + items[1..] == done + items;
      }
    }
  }

  /** One chunk applied to the array decoded so far. */
  lemma ChunkSlot(f: Field, done: seq<Value>, c: Chunk, t: bytes)
    requires WellFormedField(f) && f.htype.Repeated? && Packable(f.ltype)
    requires ChunkShape(f, c) && |done| <= f.arraySize
    ensures DecodeSlot(f, ChunkWire(f, c), SRepeated(done), ChunkPayload(f, c) + t)
         == if |done| + |ChunkItems(c)| <= f.arraySize then Got(SRepeated(done + ChunkItems(c)), t) else Fail
  {
    match c
    case Packed(items) =>
      assert items == ChunkItems(c);
      BlobRoundTrip(EncodePacked(f, items), t);
      PackedFrame(f, done, items);
    case Single(v) =>
      assert ScalarShape(f, ChunkItems(c)[0]);
      ScalarRoundTrip(f, v, t);
  }

  /** The loop after `items` were appended to an array holding `done`, or a rejection. */
  function Grow(d: Desc, f: Field, base: Message, seen: set<nat>, done: seq<Value>, items: seq<Value>,
                t: bytes): Outcome {
    if |done| + |items| <= f.arraySize
    then DecodeLoop(d, Put(base, f.storage, SRepeated(done + items)), seen + {f.tag}, t)
    else Reject
  }

  lemma GrowAppend(d: Desc, f: Field, base: Message, seen: set<nat>, done: seq<Value>, a: seq<Value>, b: seq<Value>,
                   t: bytes)
    ensures Grow(d, f, base, seen + {f.tag}, done + a, b, t) == Grow(d, f, base, seen, done, a + b, t)
  {
    assert done + a + b == done + (a + b);
    assert seen + {f.tag} + {f.tag} == seen + {f.tag};
  }

  predicate ChunkHolds(d: Desc, f: Field, base: Message, seen: set<nat>, done: seq<Value>, c: Chunk, t: bytes) {
    DecodeLoop(d, Put(base, f.storage, SRepeated(done)), seen, ChunkBytes(f, c) + t)
    == Grow(d, f, base, seen, done, ChunkItems(c), t)
  }

  lemma ChunkStep(d: Desc, f: Field, base: Message, seen: set<nat>, done: seq<Value>, c: Chunk, t: bytes)
    requires ArrayField(d, f) && ChunkShape(f, c) && |done| <= f.arraySize
    ensures ChunkHolds(d, f, base, seen, done, c, t)
  {
    var m := Put(base, f.storage, SRepeated(done));
    var wt, payload := ChunkWire(f, c), ChunkPayload(f, c);
    var s := ChunkBytes(f, c) + t;
    assert s == TagBytes(f.tag, wt) + (payload + t);
    TagRoundTrip(f.tag, wt, payload + t);
    LoopKnown(d, m, seen, s, f, wt, payload + t);
    ChunkSlot(f, done, c, t);
    PutTwice(base, f.storage, SRepeated(done), SRepeated(done + ChunkItems(c)));
  }

  /** The chunk's step holds in every state of the array. */
  ghost predicate ChunkAlways(d: Desc, f: Field, base: Message, c: Chunk) {
    forall x, ys, u | |ys| <= f.arraySize :: ChunkHolds(d, f, base, x, ys, c, u)
  }

  lemma ChunksCons(d: Desc, f: Field, base: Message, cs: seq<Chunk>)
    requires cs != [] && forall i | 0 <= i < |cs| :: ChunkAlways(d, f, base, cs[i])
    ensures forall i | 0 <= i < |cs[1..]| :: ChunkAlways(d, f, base, cs[1..][i])
  {
    forall i | 0 <= i < |cs[1..]| ensures ChunkAlways(d, f, base, cs[1..][i]) {
      assert cs[1..][i] == cs[i + 1];
    }
  }

  lemma NoChunks(d: Desc, f: Field, base: Message, seen: set<nat>, done: seq<Value>, t: bytes)
    requires |done| <= f.arraySize && f.tag in seen
    ensures DecodeLoop(d, Put(base, f.storage, SRepeated(done)), seen, WireBytes(f, []) + t)
         == Grow(d, f, base, seen, done, AllItems([]), t)
  {
    assert WireBytes(f, []) + t == t && done + [] == done && seen + {f.tag} == seen;
  }

  lemma {:induction false} ChunksChain(d: Desc, f: Field, base: Message, seen: set<nat>, done: seq<Value>,
                                       cs: seq<Chunk>, t: bytes)
    requires forall i | 0 <= i < |cs| :: ChunkAlways(d, f, base, cs[i])
    requires |done| <= f.arraySize && (cs == [] ==> f.tag in seen)
    ensures DecodeLoop(d, Put(base, f.storage, SRepeated(done)), seen, WireBytes(f, cs) + t)
         == Grow(d, f, base, seen, done, AllItems(cs), t)
    decreases |cs|
  {
    if cs == [] {
      NoChunks(d, f, base, seen, done, t);
    } else {
      var c, u := cs[0], WireBytes(f, cs[1..]) + t;
      assert WireBytes(f, cs) + t == ChunkBytes(f, c) + u;
      assert ChunkAlways(d, f, base, c);
      assert ChunkHolds(d, f, base, seen, done, c, u);
      if |done + ChunkItems(c)| <= f.arraySize {
        ChunksCons(d, f, base, cs);
        ChunksChain(d, f, base, seen + {f.tag}, done + ChunkItems(c), cs[1..], t);
        GrowAppend(d, f, base, seen, done, ChunkItems(c), AllItems(cs[1..]), t);
      }
    }
  }

  /**
   Chunks of an array field, in front of any other input: the array grows by the concatenation of the
   chunks, exactly when that stays within array_size; otherwise the input is rejected.
   */
  lemma {:induction false} ChunksConcatenate(d: Desc, f: Field, m: Message, seen: set<nat>, done: seq<Value>,
                                             cs: seq<Chunk>, t: bytes)
    requires ArrayField(d, f) && f.storage in m.slots && m.slots[f.storage] == SRepeated(done)
    requires |done| <= f.arraySize && cs != []
    requires forall i | 0 <= i < |cs| :: ChunkShape(f, cs[i])
    ensures DecodeLoop(d, m, seen, WireBytes(f, cs) + t)
         == if |done| + |AllItems(cs)| <= f.arraySize
            then DecodeLoop(d, Put(m, f.storage, SRepeated(done + AllItems(cs))), seen + {f.tag}, t)
            else Reject
  {
    forall i | 0 <= i < |cs| ensures ChunkAlways(d, f, m, cs[i]) {
      forall x, ys, u | |ys| <= f.arraySize ensures ChunkHolds(d, f, m, x, ys, cs[i], u) {
        ChunkStep(d, f, m, x, ys, cs[i], u);
      }
    }
    ChunksChain(d, f, m, seen, done, cs, t);
    assert m.slots[f.storage := SRepeated(done)] == m.slots;
  }

  /** How an array is cut into packed and unpacked pieces does not matter. */
  lemma {:induction false} SplitDoesNotMatter(d: Desc, f: Field, m: Message, seen: set<nat>, done: seq<Value>,
                           cs: seq<Chunk>, cs': seq<Chunk>, t: bytes)
    requires ArrayField(d, f) && f.storage in m.slots && m.slots[f.storage] == SRepeated(done)
    requires |done| <= f.arraySize && cs != [] && cs' != []
    requires forall i | 0 <= i < |cs| :: ChunkShape(f, cs[i])
    requires forall i | 0 <= i < |cs'| :: ChunkShape(f, cs'[i])
    requires AllItems(cs) == AllItems(cs')
    ensures DecodeLoop(d, m, seen, WireBytes(f, cs) + t) == DecodeLoop(d, m, seen, WireBytes(f, cs') + t)
  {
    ChunksConcatenate(d, f, m, seen, done, cs, t);
    ChunksConcatenate(d, f, m, seen, done, cs', t);
  }
}
