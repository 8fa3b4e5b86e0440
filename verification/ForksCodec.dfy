/** `sentry.Forks`: a byte string and a packed repeated field, whose length prefix comes from a cache. */
module ForksCodec {
  import opened Options
  import opened WireFormat
  import opened WireTheory
  import opened Decoding

  datatype Forks = Forks(genesis: Bytes, forks: seq<U64>, unknown: seq<Field>)

  const EMPTY: Forks := Forks([], [], [])

  predicate IsKnown(f: Field) {
    match f
    case Varint(num, _) => num == 2
    case Len(num, _) => num == 1 || num == 2
    case _ => false
  }

  /** `forks` is taken packed or one value at a time. */
  function Apply(depth: nat, m: Forks, f: Field): Option<Forks> {
    if f.Len? && f.num == 1 then Some(m.(genesis := f.data))
    else if f.Len? && f.num == 2 then
      (match ReadPacked(f.data)
       case Fail => None
       case Ok(vs, _) => Some(m.(forks := m.forks + vs)))
    else if f.Varint? && f.num == 2 then Some(m.(forks := m.forks + [f.value]))
    else Some(m.(unknown := m.unknown + [f]))
  }

  function Parse(depth: nat, s: Bytes): Outcome<Forks> {
    Decode(Apply, depth, EMPTY, s)
  }

  function KnownRecords(m: Forks): seq<Field> {
    OptLen(1, m.genesis) + OptLen(2, EncodePacked(m.forks))
  }

  function Serialize(m: Forks): Bytes {
    EncodeFields(KnownRecords(m) + m.unknown)
  }

  function Merge(a: Forks, b: Forks): Forks {
    Forks(if |b.genesis| > 0 then b.genesis else a.genesis, a.forks + b.forks, a.unknown + b.unknown)
  }

  /** Well-formed but for the size of the packed payload. */
  predicate Shape(depth: nat, m: Forks) {
    && |m.genesis| < TWO31
    && ValidFields(m.unknown, depth)
    && forall f | f in m.unknown :: !IsKnown(f)
  }

  predicate WellFormed(depth: nat, m: Forks) {
    Shape(depth, m) && PackedSize(m.forks) < TWO31
  }

  // ---- Round trip, canonicalisation, merging ----

  lemma FoldUnknown(depth: nat, m: Forks, us: seq<Field>)
    requires forall f | f in us :: !IsKnown(f)
    ensures Fold(Apply, depth, m, us) == Some(m.(unknown := m.unknown + us))
  {
    FoldStored(Apply, depth, m, us, (m: Forks) => m.unknown, (m: Forks, a: seq<Field>) => m.(unknown := a));
  }

  lemma FoldKnown(depth: nat, a: Forks, b: Forks)
    ensures Fold(Apply, depth, a, KnownRecords(b)) == Some(Merge(a, b).(unknown := a.unknown))
  {
    var r1 := OptLen(1, b.genesis);
    FoldThenLen(Apply, depth, a, [], 1, b.genesis);
    assert [] + r1 == r1;
    FoldThenLen(Apply, depth, a, r1, 2, EncodePacked(b.forks));
    PackedRoundTrip(b.forks);
    if b.forks == [] { assert a.forks + b.forks == a.forks; }
  }

  lemma DecodeSerialized(depth: nat, a: Forks, b: Forks)
    requires WellFormed(depth, b)
    ensures Decode(Apply, depth, a, Serialize(b)) == Done(Merge(a, b))
  {
    EncodedPackedLength(b.forks);
    DecodeWritten(Apply, depth, a, KnownRecords(b) + b.unknown, []);
    assert Serialize(b) + [] == Serialize(b);
    FoldConcat(Apply, depth, a, KnownRecords(b), b.unknown);
    FoldKnown(depth, a, b);
    FoldUnknown(depth, Merge(a, b).(unknown := a.unknown), b.unknown);
  }

  lemma MergeMonoid(a: Forks, b: Forks, c: Forks)
    ensures Merge(EMPTY, a) == a && Merge(a, EMPTY) == a
    ensures Merge(Merge(a, b), c) == Merge(a, Merge(b, c))
  {
    assert [] + a.forks == a.forks && [] + a.unknown == a.unknown;
    assert a.forks + b.forks + c.forks == a.forks + (b.forks + c.forks);
    assert a.unknown + b.unknown + c.unknown == a.unknown + (b.unknown + c.unknown);
  }

  /** The size of the canonical form, plus one while there is no fork value yet. */
  function Cost(m: Forks): nat {
    (if |m.genesis| > 0 then 1 + LenSize(|m.genesis|) else 0) + ForksCost(PackedSize(m.forks)) + FieldsSize(m.unknown)
  }

  function ForksCost(n: nat): nat {
    if n == 0 then 1 else 1 + VarintSize(n) + n
  }

  /** Packing forks that arrived in pieces never costs more than the pieces did. */
  lemma ForksCostGrows(n: nat, d: nat, raw: nat)
    requires d <= raw
    ensures ForksCost(n + d) <= ForksCost(n) + 1 + VarintSize(raw) + raw
    ensures 1 <= d < 128 ==> ForksCost(n + d) <= ForksCost(n) + 1 + d
  {
    VarintSizeSubadditive(n, d);
    VarintSizeMonotone(d, raw);
  }

  lemma ApplyCost(depth: nat, m: Forks, f: Field)
    requires ValidField(f, depth) && Apply(depth, m, f).Some?
    ensures Cost(Apply(depth, m, f).value) <= Cost(m) + FieldSize(f)
  {
    match f
    case Varint(num, v) => if num == 2 { SingleCost(m, v); } else { UnknownCost(m, f); }
    case Len(num, data) =>
      if num == 1 { GenesisCost(m, data); } else if num == 2 { ChunkCost(m, data); } else { UnknownCost(m, f); }
    case _ => UnknownCost(m, f);
  }

  lemma UnknownCost(m: Forks, f: Field)
    ensures Cost(m.(unknown := m.unknown + [f])) == Cost(m) + FieldSize(f)
  {
    FieldsSizeLast(m.unknown, f);
  }

  lemma GenesisCost(m: Forks, data: Bytes)
    ensures Cost(m.(genesis := data)) <= Cost(m) + FieldSize(Len(1, data))
  {
  }

  lemma ChunkCost(m: Forks, data: Bytes)
    requires |data| < TWO31 && ReadPacked(data).Ok?
    ensures Cost(m.(forks := m.forks + ReadPacked(data).value)) <= Cost(m) + FieldSize(Len(2, data))
  {
    hide PackedSize, ReadPacked;
    var vs := ReadPacked(data).value;
    ReadPackedIsCanonical(data);
    PackedSizeConcat(m.forks, vs);
    ForksCostGrows(PackedSize(m.forks), PackedSize(vs), |data|);
    LenFieldSize(2, data);
    ReplaceForksCost(m, m.forks + vs);
  }

  lemma LenFieldSize(num: FieldNumber, data: Bytes)
    requires num < 16 && |data| < TWO31
    ensures FieldSize(Len(num, data)) == 1 + VarintSize(|data|) + |data|
  {
  }

  lemma ReplaceForksCost(m: Forks, vs: seq<U64>)
    ensures Cost(m.(forks := vs)) - Cost(m) == ForksCost(PackedSize(vs)) - ForksCost(PackedSize(m.forks))
  {
  }

  lemma SingleCost(m: Forks, v: U64)
    ensures Cost(m.(forks := m.forks + [v])) <= Cost(m) + FieldSize(Varint(2, v))
  {
    PackedSizeLast(m.forks, v);
    Varint64Short(v);
    ForksCostGrows(PackedSize(m.forks), VarintSize(v), VarintSize(v));
  }

  lemma Varint64Short(v: U64)
    ensures VarintSize(v) <= 10
  {
    Pow128Bounds();
    VarintSizeMonotone(v, Pow128(10) - 1);
    VarintSizeExact(Pow128(10) - 1, 10);
  }

  lemma SerializedCost(m: Forks)
    requires PackedSize(m.forks) < TWO31
    ensures |Serialize(m)| <= Cost(m)
  {
    SizeIsLength(m);
  }

  lemma DecodeKeepsShape(depth: nat, m: Forks, s: Bytes)
    requires Shape(depth, m) && Decode(Apply, depth, m, s).Done?
    ensures Shape(depth, Decode(Apply, depth, m, s).msg)
    ensures Cost(Decode(Apply, depth, m, s).msg) <= Cost(m) + |s|
  {
    DecodeKeeps(Apply, Shape, depth, m, s);
    forall m: Forks, f: Field | ValidField(f, depth) && Apply(depth, m, f).Some?
      ensures Cost(Apply(depth, m, f).value) <= Cost(m) + FieldSize(f)
    {
      ApplyCost(depth, m, f);
    }
    DecodeCosts(Apply, Cost, depth, m, s);
  }

  lemma ParsedIsWellFormed(depth: nat, s: Bytes)
    requires |s| < TWO31 && Parse(depth, s).Done?
    ensures WellFormed(depth, Parse(depth, s).msg)
  {
    DecodeKeepsShape(depth, EMPTY, s);
  }

  /** For every message below 2^31 bytes. */
  lemma RoundTrip(depth: nat, m: Forks)
    requires |Serialize(m)| < TWO31
    ensures Parse(depth, Serialize(m)) == Done(m) <==> WellFormed(depth, m)
  {
    if WellFormed(depth, m) {
      DecodeSerialized(depth, EMPTY, m);
      MergeMonoid(m, m, m);
    }
    if Parse(depth, Serialize(m)) == Done(m) {
      ParsedIsWellFormed(depth, Serialize(m));
    }
  }

  /** The canonical form is at most one byte longer than the input: one fork alone is shorter unpacked. */
  lemma Canonical(depth: nat, s: Bytes)
    requires |s| < TWO31 && Parse(depth, s).Done?
    ensures Parse(depth, Serialize(Parse(depth, s).msg)) == Parse(depth, s)
    ensures |Serialize(Parse(depth, s).msg)| <= |s| + 1
  {
    var m := Parse(depth, s).msg;
    ParsedIsWellFormed(depth, s);
    DecodeKeepsShape(depth, EMPTY, s);
    SerializedCost(m);
    DecodeSerialized(depth, EMPTY, m);
    MergeMonoid(m, m, m);
  }

  lemma ConcatIsMerge(depth: nat, s: Bytes, b: Forks)
    requires Parse(depth, s).Done? && WellFormed(depth, b)
    ensures Parse(depth, s + Serialize(b)) == Done(Merge(Parse(depth, s).msg, b))
  {
    DecodeConcat(Apply, depth, EMPTY, s, Serialize(b));
    DecodeSerialized(depth, Parse(depth, s).msg, b);
  }

  // ---- Packed and unpacked records ----

  datatype Piece = One(value: U64) | Chunk(values: seq<U64>) | Genesis(bytes: Bytes)

  function PieceRecord(p: Piece): Field {
    match p
    case One(v) => Varint(2, v)
    case Chunk(vs) => Len(2, EncodePacked(vs))
    case Genesis(bs) => Len(1, bs)
  }

  function PieceRecords(ps: seq<Piece>): seq<Field> {
    if ps == [] then [] else [PieceRecord(ps[0])] + PieceRecords(ps[1..])
  }

  function PieceForks(p: Piece): seq<U64> {
    match p case One(v) => [v] case Chunk(vs) => vs case Genesis(_) => []
  }

  function AllForks(ps: seq<Piece>): seq<U64> {
    if ps == [] then [] else PieceForks(ps[0]) + AllForks(ps[1..])
  }

  function LastGenesis(ps: seq<Piece>, default: Bytes): Bytes {
    if ps == [] then default
    else LastGenesis(ps[1..], if ps[0].Genesis? then ps[0].bytes else default)
  }

  function TakePieces(m: Forks, ps: seq<Piece>): Forks {
    m.(genesis := LastGenesis(ps, m.genesis), forks := m.forks + AllForks(ps))
  }

  function TakePiece(m: Forks, p: Piece): Forks {
    m.(genesis := if p.Genesis? then p.bytes else m.genesis, forks := m.forks + PieceForks(p))
  }

  lemma ApplyPiece(depth: nat, m: Forks, p: Piece)
    ensures Apply(depth, m, PieceRecord(p)) == Some(TakePiece(m, p))
  {
    if p.Chunk? { PackedRoundTrip(p.values); }
    if p.Genesis? { assert m.forks + [] == m.forks; }
  }

  lemma TakePiecesStep(m: Forks, ps: seq<Piece>)
    requires ps != []
    ensures TakePieces(TakePiece(m, ps[0]), ps[1..]) == TakePieces(m, ps)
  {
    assert m.forks + PieceForks(ps[0]) + AllForks(ps[1..]) == m.forks + (PieceForks(ps[0]) + AllForks(ps[1..]));
  }

  lemma {:induction false} FoldPieces(depth: nat, m: Forks, ps: seq<Piece>)
    ensures Fold(Apply, depth, m, PieceRecords(ps)) == Some(TakePieces(m, ps))
    decreases |ps|
  {
    if ps == [] {
      assert m.forks + AllForks(ps) == m.forks;
    } else {
      ApplyPiece(depth, m, ps[0]);
      FoldCons(Apply, depth, m, PieceRecord(ps[0]), PieceRecords(ps[1..]));
      FoldPieces(depth, TakePiece(m, ps[0]), ps[1..]);
      TakePiecesStep(m, ps);
    }
  }

  /** However a fork list is split over packed and single records, it parses to the same list. */
  lemma SplittingDoesNotMatter(depth: nat, ps: seq<Piece>)
    requires ValidFields(PieceRecords(ps), depth)
    ensures Parse(depth, EncodeFields(PieceRecords(ps))) == Done(Forks(LastGenesis(ps, []), AllForks(ps), []))
  {
    DecodeWritten(Apply, depth, EMPTY, PieceRecords(ps), []);
    assert EncodeFields(PieceRecords(ps)) + [] == EncodeFields(PieceRecords(ps));
    FoldPieces(depth, EMPTY, ps);
    assert [] + AllForks(ps) == AllForks(ps);
  }

  // ---- The size pass and the cached length ----

  function ByteSize(m: Forks): nat {
    (if PackedSize(m.forks) > 0 then 1 + Int32Size(ToI32(PackedSize(m.forks))) else 0) + PackedSize(m.forks)
    + (if |m.genesis| > 0 then 1 + LenSize(|m.genesis|) else 0)
    + FieldsSize(m.unknown)
  }

  lemma SizeIsLength(m: Forks)
    requires PackedSize(m.forks) < TWO31
    ensures |Serialize(m)| == ByteSize(m)
  {
    EncodedPackedLength(m.forks);
    var r1 := OptLen(1, m.genesis);
    assert [] + r1 == r1;
    SizeThenLen([], 1, m.genesis);
    SizeThenLen(r1, 2, EncodePacked(m.forks));
    FieldsSizeConcat(KnownRecords(m), m.unknown);
    EncodedFieldsLength(KnownRecords(m) + m.unknown);
  }

  /** What the serializer writes for the forks when the cached byte size is `cached`. */
  function PackedWithCache(forks: seq<U64>, cached: I32): Bytes {
    if cached > 0 then EncodeTag(2, 2) + EncodeVarint(cached) + EncodePacked(forks) else []
  }

  function SerializeWithCache(m: Forks, cached: I32): Bytes {
    EncodeFields(OptLen(1, m.genesis)) + PackedWithCache(m.forks, cached) + EncodeFields(m.unknown)
  }

  lemma PackedRecord(forks: seq<U64>)
    requires PackedSize(forks) < TWO31
    ensures EncodeFields(OptLen(2, EncodePacked(forks))) == PackedWithCache(forks, PackedSize(forks))
  {
    EncodedPackedLength(forks);
    EncodeOneField(Len(2, EncodePacked(forks)));
  }

  lemma SerializePieces(m: Forks)
    requires PackedSize(m.forks) < TWO31
    ensures Serialize(m) == SerializeWithCache(m, PackedSize(m.forks))
  {
    PackedRecord(m.forks);
    EncodeFieldsConcat(KnownRecords(m), m.unknown);
    EncodeFieldsConcat(OptLen(1, m.genesis), OptLen(2, EncodePacked(m.forks)));
  }

  /** The cached size is right exactly when the output is: stale caches always show. */
  lemma CacheDecidesOutput(m: Forks, cached: I32)
    requires PackedSize(m.forks) < TWO31
    ensures SerializeWithCache(m, cached) == Serialize(m) <==> (if cached > 0 then cached else 0) == PackedSize(m.forks)
  {
    SerializePieces(m);
    if SerializeWithCache(m, cached) == Serialize(m) {
      Cancel(EncodeFields(OptLen(1, m.genesis)), PackedWithCache(m.forks, cached),
             PackedWithCache(m.forks, PackedSize(m.forks)), EncodeFields(m.unknown));
      PackedDecidesCache(m.forks, cached, PackedSize(m.forks));
    }
  }

  lemma Cancel(front: Bytes, x: Bytes, y: Bytes, back: Bytes)
    requires front + x + back == front + y + back
    ensures x == y
  {
    assert |x| == |y|;
    assert (front + x + back)[|front|..|front| + |x|] == x;
    assert (front + y + back)[|front|..|front| + |y|] == y;
  }

  lemma PackedDecidesCache(forks: seq<U64>, a: I32, b: I32)
    requires PackedWithCache(forks, a) == PackedWithCache(forks, b)
    ensures (if a > 0 then a else 0) == (if b > 0 then b else 0)
  {
    if a > 0 && b > 0 {
      var tag, data := EncodeTag(2, 2), EncodePacked(forks);
      assert (tag + EncodeVarint(a) + data)[|tag|..] == EncodeVarint(a) + data;
      assert (tag + EncodeVarint(b) + data)[|tag|..] == EncodeVarint(b) + data;
      Varint64RoundTrip(a, data);
      Varint64RoundTrip(b, data);
    }
  }

  lemma WrittenIsSerialized(target: Bytes, m: Forks, cached: I32)
    ensures PutLen(target, 1, m.genesis) + PackedWithCache(m.forks, cached) + EncodeFields(m.unknown)
         == target + SerializeWithCache(m, cached)
  {
    PutLenAppends(target, [], 1, m.genesis);
    assert [] + OptLen(1, m.genesis) == OptLen(1, m.genesis);
    assert target + EncodeFields([]) == target;
    var a, b, c := EncodeFields(OptLen(1, m.genesis)), PackedWithCache(m.forks, cached), EncodeFields(m.unknown);
    assert target + a + b + c == target + (a + b + c);
  }

  // ---- The message object ----

  class ForksMessage {
    var genesis: Bytes
    var forks: seq<U64>
    var unknown: seq<Field>
    var cachedSize: I32
    var forksCachedByteSize: I32

    function Value(): Forks
      reads this
    {
      Forks(genesis, forks, unknown)
    }

    constructor ()
      ensures Value() == EMPTY
    {
      genesis, forks, unknown, cachedSize, forksCachedByteSize := [], [], [], 0, 0;
    }

    method Clear()
      modifies this
      ensures Value() == EMPTY
    {
      forks := [];
      genesis := [];
      unknown := [];
    }

    method InternalParse(s: Bytes, depth: nat) returns (end: ParseEnd)
      modifies this
      ensures Ends(Decode(Apply, depth, old(Value()), s), end, Value())
    {
      var ptr := s;
      while ptr != []
        invariant Decode(Apply, depth, Value(), ptr) == Decode(Apply, depth, old(Value()), s)
        decreases |ptr|
      {
        var tag := ReadTag(ptr);
        if tag.Fail? { return NullPtr; }
        ghost var before := Value();
        var next := ParseField(tag.value, ptr[tag.size..], depth);
        DecodeTurn(Apply, depth, before, ptr, next, Value());
        if next.Return? { return next.end; }
        ptr := next.ptr;
      }
      end := AtLimit;
    }

    method ParseField(tag: U32, ptr: Bytes, depth: nat) returns (next: Next)
      modifies this
      ensures Takes(Apply, depth, old(Value()), tag, ptr, next, Value())
    {
      if tag / 8 == 1 && tag % 256 == 10 {
        assert tag == 10;
        var str := ReadLen(ptr);
        if str.Fail? { return Return(NullPtr); }
        genesis := str.value;
        return Continue(ptr[str.size..]);
      } else if tag / 8 == 2 && tag % 256 == 18 {
        assert tag == 18;
        var chunk := ReadLen(ptr);
        if chunk.Fail? { return Return(NullPtr); }
        var values := ReadPacked(chunk.value);
        if values.Fail? { return Return(NullPtr); }
        forks := forks + values.value;
        return Continue(ptr[chunk.size..]);
      } else if tag / 8 == 2 && tag % 256 == 16 {
        assert tag == 16;
        var val := ReadVarint64(ptr);
        if val.Fail? { return Return(NullPtr); }
        forks := forks + [val.value];
        return Continue(ptr[val.size..]);
      }
      if tag % 8 == 4 || tag == 0 { return Return(AtTag(tag)); }
      var field := ReadPayload(depth, tag, ptr);
      if field.Fail? { return Return(NullPtr); }
      PayloadKind(depth, tag, ptr);
      unknown := unknown + [field.value];
      return Continue(ptr[field.size..]);
    }

    /** Trusts `forksCachedByteSize`, which the size pass left behind. */
    method InternalSerialize(target: Bytes) returns (out: Bytes)
      ensures out == target + SerializeWithCache(Value(), forksCachedByteSize)
    {
      out := target;
      if |genesis| > 0 { out := out + EncodeTag(1, 2) + EncodeLen(genesis); }
      assert out == PutLen(target, 1, genesis);
      var byteSize := forksCachedByteSize;
      if byteSize > 0 { out := out + (EncodeTag(2, 2) + EncodeVarint(byteSize) + EncodePacked(forks)); }
      assert out == PutLen(target, 1, genesis) + PackedWithCache(forks, byteSize);
      if unknown != [] { out := out + EncodeFields(unknown); }
      WrittenIsSerialized(target, Value(), byteSize);
    }

    method ByteSizeLong() returns (totalSize: nat)
      modifies this`cachedSize, this`forksCachedByteSize
      ensures totalSize == ByteSize(Value())
      ensures cachedSize == ToI32(totalSize)
      ensures forksCachedByteSize == ToI32(PackedSize(forks))
    {
      totalSize := 0;
      var dataSize := PackedSize(forks);
      if dataSize > 0 { totalSize := totalSize + 1 + Int32Size(ToI32(dataSize)); }
      forksCachedByteSize := ToI32(dataSize);
      totalSize := totalSize + dataSize;
      if |genesis| > 0 { totalSize := totalSize + 1 + LenSize(|genesis|); }
      if unknown != [] {
        totalSize := totalSize + FieldsSize(unknown);
        cachedSize := ToI32(totalSize);
        return;
      }
      cachedSize := ToI32(totalSize);
    }

    method MergeFrom(from: ForksMessage)
      requires from != this
      modifies this
      ensures Value() == Merge(old(Value()), from.Value())
    {
      unknown := unknown + from.unknown;
      forks := forks + from.forks;
      if |from.genesis| > 0 { genesis := from.genesis; }
    }

    method CopyFrom(from: ForksMessage)
      modifies this
      ensures Value() == old(from.Value())
    {
      if from == this { return; }
      Clear();
      MergeMonoid(from.Value(), from.Value(), from.Value());
      MergeFrom(from);
    }
  }
}
