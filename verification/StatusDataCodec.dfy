/** `sentry.StatusData`: a message with an optional submessage, whose length prefix is a cached size. */
module StatusDataCodec {
  import opened Options
  import opened WireFormat
  import opened WireTheory
  import opened Decoding
  import F = ForksCodec

  datatype StatusData = StatusData(
    networkId: U64, totalDifficulty: Bytes, bestHash: Bytes, forkData: Option<F.Forks>, unknown: seq<Field>)

  const EMPTY: StatusData := StatusData(0, [], [], None, [])

  predicate IsKnown(f: Field) {
    match f
    case Varint(num, _) => num == 1
    case Len(num, _) => num == 2 || num == 3 || num == 4
    case _ => false
  }

  /** A submessage is parsed on top of the one already there, one level deeper, and must fill its extent. */
  function ParseForks(depth: nat, prior: Option<F.Forks>, data: Bytes): Option<F.Forks> {
    if depth == 0 then None
    else match Decode(F.Apply, depth - 1, prior.GetOr(F.EMPTY), data)
      case Done(f) => Some(f)
      case _ => None
  }

  function Apply(depth: nat, m: StatusData, f: Field): Option<StatusData> {
    if f.Varint? && f.num == 1 then Some(m.(networkId := f.value))
    else if f.Len? && f.num == 2 then Some(m.(totalDifficulty := f.data))
    else if f.Len? && f.num == 3 then Some(m.(bestHash := f.data))
    else if f.Len? && f.num == 4 then
      (match ParseForks(depth, m.forkData, f.data)
       case None => None
       case Some(forks) => Some(m.(forkData := Some(forks))))
    else Some(m.(unknown := m.unknown + [f]))
  }

  function Parse(depth: nat, s: Bytes): Outcome<StatusData> {
    Decode(Apply, depth, EMPTY, s)
  }

  /** A present submessage is written even when it is empty. */
  function ForkRecord(forkData: Option<F.Forks>): seq<Field> {
    match forkData
    case None => []
    case Some(f) => [Len(4, F.Serialize(f))]
  }

  function ScalarRecords(m: StatusData): seq<Field> {
    OptVarint(1, m.networkId) + OptLen(2, m.totalDifficulty) + OptLen(3, m.bestHash)
  }

  function KnownRecords(m: StatusData): seq<Field> {
    ScalarRecords(m) + ForkRecord(m.forkData)
  }

  function Serialize(m: StatusData): Bytes {
    EncodeFields(KnownRecords(m) + m.unknown)
  }

  function MergeForks(a: Option<F.Forks>, b: Option<F.Forks>): Option<F.Forks> {
    match b
    case None => a
    case Some(f) => Some(F.Merge(a.GetOr(F.EMPTY), f))
  }

  function Merge(a: StatusData, b: StatusData): StatusData {
    StatusData(
      if b.networkId != 0 then b.networkId else a.networkId,
      if |b.totalDifficulty| > 0 then b.totalDifficulty else a.totalDifficulty,
      if |b.bestHash| > 0 then b.bestHash else a.bestHash,
      MergeForks(a.forkData, b.forkData),
      a.unknown + b.unknown)
  }

  /** Well-formed but for the size of the submessage. */
  predicate Shape(depth: nat, m: StatusData) {
    && |m.totalDifficulty| < TWO31 && |m.bestHash| < TWO31
    && (m.forkData.Some? ==> depth > 0 && F.Shape(depth - 1, m.forkData.value))
    && ValidFields(m.unknown, depth)
    && forall f | f in m.unknown :: !IsKnown(f)
  }

  predicate WellFormed(depth: nat, m: StatusData) {
    && Shape(depth, m)
    && (m.forkData.Some? ==> PackedSize(m.forkData.value.forks) < TWO31 && |F.Serialize(m.forkData.value)| < TWO31)
  }

  // ---- Round trip, canonicalisation, merging ----

  lemma FoldUnknown(depth: nat, m: StatusData, us: seq<Field>)
    requires forall f | f in us :: !IsKnown(f)
    ensures Fold(Apply, depth, m, us) == Some(m.(unknown := m.unknown + us))
  {
    FoldStored(Apply, depth, m, us, (m: StatusData) => m.unknown, (m: StatusData, a: seq<Field>) => m.(unknown := a));
  }

  lemma FoldScalars(depth: nat, a: StatusData, b: StatusData)
    ensures Fold(Apply, depth, a, ScalarRecords(b)) == Some(Merge(a, b).(forkData := a.forkData, unknown := a.unknown))
  {
    var r1 := OptVarint(1, b.networkId);
    var r2 := r1 + OptLen(2, b.totalDifficulty);
    FoldThenVarint(Apply, depth, a, [], 1, b.networkId);
    assert [] + r1 == r1;
    FoldThenLen(Apply, depth, a, r1, 2, b.totalDifficulty);
    FoldThenLen(Apply, depth, a, r2, 3, b.bestHash);
  }

  lemma FoldForks(depth: nat, a: StatusData, b: Option<F.Forks>)
    requires b.Some? ==> depth > 0 && F.WellFormed(depth - 1, b.value)
    ensures Fold(Apply, depth, a, ForkRecord(b)) == Some(a.(forkData := MergeForks(a.forkData, b)))
  {
    if b.Some? {
      F.DecodeSerialized(depth - 1, a.forkData.GetOr(F.EMPTY), b.value);
      FoldCons(Apply, depth, a, Len(4, F.Serialize(b.value)), []);
    }
  }

  lemma DecodeSerialized(depth: nat, a: StatusData, b: StatusData)
    requires WellFormed(depth, b)
    ensures Decode(Apply, depth, a, Serialize(b)) == Done(Merge(a, b))
  {
    DecodeWritten(Apply, depth, a, KnownRecords(b) + b.unknown, []);
    assert Serialize(b) + [] == Serialize(b);
    FoldConcat(Apply, depth, a, KnownRecords(b), b.unknown);
    FoldConcat(Apply, depth, a, ScalarRecords(b), ForkRecord(b.forkData));
    FoldScalars(depth, a, b);
    var a' := Merge(a, b).(forkData := a.forkData, unknown := a.unknown);
    FoldForks(depth, a', b.forkData);
    FoldUnknown(depth, Merge(a, b).(unknown := a.unknown), b.unknown);
  }

  lemma MergeMonoid(a: StatusData, b: StatusData, c: StatusData)
    ensures Merge(EMPTY, a) == a && Merge(a, EMPTY) == a
    ensures Merge(Merge(a, b), c) == Merge(a, Merge(b, c))
  {
    assert [] + a.unknown == a.unknown;
    assert a.unknown + b.unknown + c.unknown == a.unknown + (b.unknown + c.unknown);
    F.MergeMonoid(a.forkData.GetOr(F.EMPTY), b.forkData.GetOr(F.EMPTY), c.forkData.GetOr(F.EMPTY));
    F.MergeMonoid(b.forkData.GetOr(F.EMPTY), b.forkData.GetOr(F.EMPTY), c.forkData.GetOr(F.EMPTY));
    F.MergeMonoid(c.forkData.GetOr(F.EMPTY), b.forkData.GetOr(F.EMPTY), c.forkData.GetOr(F.EMPTY));
  }

  /** The canonical size of the submessage never outgrows the bytes that were parsed into it. */
  function Cost(m: StatusData): nat {
    match m.forkData
    case None => 0
    case Some(f) => F.Cost(f)
  }

  lemma ApplyCost(depth: nat, m: StatusData, f: Field)
    requires ValidField(f, depth) && Apply(depth, m, f).Some?
    ensures Cost(Apply(depth, m, f).value) <= Cost(m) + FieldSize(f)
  {
    if f.Len? && f.num == 4 {
      ForksCost(depth, m.forkData, f.data);
      F.LenFieldSize(4, f.data);
    }
  }

  lemma ForksCost(depth: nat, prior: Option<F.Forks>, data: Bytes)
    requires ParseForks(depth, prior, data).Some?
    ensures F.Cost(ParseForks(depth, prior, data).value) <= (if prior.Some? then F.Cost(prior.value) else 1) + |data|
  {
    forall m: F.Forks, f: Field | ValidField(f, depth - 1) && F.Apply(depth - 1, m, f).Some?
      ensures F.Cost(F.Apply(depth - 1, m, f).value) <= F.Cost(m) + FieldSize(f)
    {
      F.ApplyCost(depth - 1, m, f);
    }
    DecodeCosts(F.Apply, F.Cost, depth - 1, prior.GetOr(F.EMPTY), data);
  }

  lemma ApplyKeepsShape(depth: nat, m: StatusData, f: Field)
    requires Shape(depth, m) && ValidField(f, depth) && Apply(depth, m, f).Some?
    ensures Shape(depth, Apply(depth, m, f).value)
  {
    if f.Len? && f.num == 4 {
      F.DecodeKeepsShape(depth - 1, m.forkData.GetOr(F.EMPTY), f.data);
    }
  }

  lemma ParsedIsWellFormed(depth: nat, s: Bytes)
    requires |s| < TWO31 && Parse(depth, s).Done?
    ensures WellFormed(depth, Parse(depth, s).msg)
  {
    forall m: StatusData, f: Field | ValidField(f, depth) && Apply(depth, m, f).Some?
      ensures Shape(depth, m) ==> Shape(depth, Apply(depth, m, f).value)
      ensures Cost(Apply(depth, m, f).value) <= Cost(m) + FieldSize(f)
    {
      ApplyCost(depth, m, f);
      if Shape(depth, m) { ApplyKeepsShape(depth, m, f); }
    }
    DecodeKeeps(Apply, Shape, depth, EMPTY, s);
    DecodeCosts(Apply, Cost, depth, EMPTY, s);
    var m := Parse(depth, s).msg;
    if m.forkData.Some? { F.SerializedCost(m.forkData.value); }
  }

  /** For every message below 2^31 bytes, nested submessage and unknown fields included. */
  lemma RoundTrip(depth: nat, m: StatusData)
    requires |Serialize(m)| < TWO31
    ensures Parse(depth, Serialize(m)) == Done(m) <==> WellFormed(depth, m)
  {
    if WellFormed(depth, m) {
      DecodeSerialized(depth, EMPTY, m);
      MergeMonoid(m, m, m);
    }
    if Parse(depth, Serialize(m)) == Done(m) {
      ParsedIsWellFormed(depth, Serialize(m));
    }
  }

  /** Every accepted input, however it was encoded, parses to a message that survives the wire. */
  lemma Canonical(depth: nat, s: Bytes)
    requires |s| < TWO31 && Parse(depth, s).Done?
    ensures Parse(depth, Serialize(Parse(depth, s).msg)) == Parse(depth, s)
  {
    var m := Parse(depth, s).msg;
    ParsedIsWellFormed(depth, s);
    DecodeSerialized(depth, EMPTY, m);
    MergeMonoid(m, m, m);
  }

  lemma ConcatIsMerge(depth: nat, s: Bytes, b: StatusData)
    requires Parse(depth, s).Done? && WellFormed(depth, b)
    ensures Parse(depth, s + Serialize(b)) == Done(Merge(Parse(depth, s).msg, b))
  {
    DecodeConcat(Apply, depth, EMPTY, s, Serialize(b));
    DecodeSerialized(depth, Parse(depth, s).msg, b);
  }

  // ---- The size pass and the cached sizes ----

  function ByteSize(m: StatusData): nat {
    (if |m.totalDifficulty| > 0 then 1 + LenSize(|m.totalDifficulty|) else 0)
    + (if |m.bestHash| > 0 then 1 + LenSize(|m.bestHash|) else 0)
    + (if m.forkData.Some? then 1 + LenSize(F.ByteSize(m.forkData.value)) else 0)
    + (if m.networkId != 0 then 1 + VarintSize(m.networkId) else 0)
    + FieldsSize(m.unknown)
  }

  lemma SizeIsLength(m: StatusData)
    requires m.forkData.Some? ==> PackedSize(m.forkData.value.forks) < TWO31
    ensures |Serialize(m)| == ByteSize(m)
  {
    var r1 := OptVarint(1, m.networkId);
    var r2 := r1 + OptLen(2, m.totalDifficulty);
    assert [] + r1 == r1;
    SizeThenVarint([], 1, m.networkId);
    SizeThenLen(r1, 2, m.totalDifficulty);
    SizeThenLen(r2, 3, m.bestHash);
    FieldsSizeConcat(ScalarRecords(m), ForkRecord(m.forkData));
    ForkRecordSize(m.forkData);
    FieldsSizeConcat(KnownRecords(m), m.unknown);
    EncodedFieldsLength(KnownRecords(m) + m.unknown);
  }

  lemma ForkRecordSize(forkData: Option<F.Forks>)
    requires forkData.Some? ==> PackedSize(forkData.value.forks) < TWO31
    ensures FieldsSize(ForkRecord(forkData)) == if forkData.Some? then 1 + LenSize(F.ByteSize(forkData.value)) else 0
  {
    if forkData.Some? {
      F.SizeIsLength(forkData.value);
      FieldsSizeLast([], Len(4, F.Serialize(forkData.value)));
      assert [] + ForkRecord(forkData) == ForkRecord(forkData);
    }
  }

  /** The caches the serializer trusts: the submessage's total size and its packed size. */
  datatype Caches = Caches(forkData: I32, forks: I32)

  function FreshCaches(m: StatusData): Caches {
    match m.forkData
    case None => Caches(0, 0)
    case Some(f) => Caches(ToI32(F.ByteSize(f)), ToI32(PackedSize(f.forks)))
  }

  /** `InternalWriteMessage`: tag, cached size as an unsigned 32-bit value, then the submessage. */
  function ForksWithCaches(forkData: Option<F.Forks>, caches: Caches): Bytes {
    match forkData
    case None => []
    case Some(f) =>
      EncodeTag(4, 2) + EncodeVarint(if caches.forkData < 0 then caches.forkData + TWO32 else caches.forkData)
      + F.SerializeWithCache(f, caches.forks)
  }

  function SerializeWithCaches(m: StatusData, caches: Caches): Bytes {
    EncodeFields(ScalarRecords(m)) + ForksWithCaches(m.forkData, caches) + EncodeFields(m.unknown)
  }

  /** After a size pass with no later change, both length prefixes are right and so is the output. */
  lemma FreshCachesSerialize(m: StatusData)
    requires m.forkData.Some? ==> PackedSize(m.forkData.value.forks) < TWO31 && |F.Serialize(m.forkData.value)| < TWO31
    ensures SerializeWithCaches(m, FreshCaches(m)) == Serialize(m)
  {
    hide EncodeFields, ScalarRecords, FreshCaches, ForksWithCaches;
    EncodeFieldsConcat(KnownRecords(m), m.unknown);
    EncodeFieldsConcat(ScalarRecords(m), ForkRecord(m.forkData));
    FreshForks(m);
  }

  lemma FreshForks(m: StatusData)
    requires m.forkData.Some? ==> PackedSize(m.forkData.value.forks) < TWO31 && |F.Serialize(m.forkData.value)| < TWO31
    ensures ForksWithCaches(m.forkData, FreshCaches(m)) == EncodeFields(ForkRecord(m.forkData))
  {
    hide EncodeFields, EncodeVarint, F.Serialize, F.SerializeWithCache;
    if m.forkData.Some? {
      var f := m.forkData.value;
      F.SizeIsLength(f);
      F.SerializePieces(f);
      EncodeOneField(Len(4, F.Serialize(f)));
      var n := EncodeVarint(|F.Serialize(f)|);
      assert EncodeTag(4, 2) + (n + F.Serialize(f)) == EncodeTag(4, 2) + n + F.Serialize(f);
    } else {
      NoFields();
    }
  }

  lemma NoFields()
    ensures EncodeFields([]) == []
  {
  }

  /** Reading a varint back: what follows equal bytes is equal. */
  lemma SamePrefix(a: U64, b: U64, x: Bytes, y: Bytes)
    requires EncodeVarint(a) + x == EncodeVarint(b) + y
    ensures a == b && x == y
  {
    Varint64RoundTrip(a, x);
    Varint64RoundTrip(b, y);
    assert (EncodeVarint(a) + x)[|EncodeVarint(a)|..] == x;
    assert (EncodeVarint(b) + y)[|EncodeVarint(b)|..] == y;
  }

  /** The submessage as written is right if and only if both caches are. */
  lemma CachesDecideForks(f: F.Forks, caches: Caches)
    requires PackedSize(f.forks) < TWO31 && |F.Serialize(f)| < TWO31
    ensures ForksWithCaches(Some(f), caches) == EncodeTag(4, 2) + EncodeVarint(|F.Serialize(f)|) + F.Serialize(f) <==>
              && caches.forkData == |F.Serialize(f)|
              && (if caches.forks > 0 then caches.forks else 0) == PackedSize(f.forks)
  {
    hide EncodeVarint, EncodeTag, F.Serialize, F.SerializeWithCache;
    F.CacheDecidesOutput(f, caches.forks);
    var tag := EncodeTag(4, 2);
    var size := if caches.forkData < 0 then caches.forkData + TWO32 else caches.forkData;
    var written, right := F.SerializeWithCache(f, caches.forks), F.Serialize(f);
    assert (tag + EncodeVarint(size) + written)[|tag|..] == EncodeVarint(size) + written;
    assert (tag + EncodeVarint(|right|) + right)[|tag|..] == EncodeVarint(|right|) + right;
    if ForksWithCaches(Some(f), caches) == tag + EncodeVarint(|right|) + right {
      SamePrefix(size, |right|, written, right);
    }
  }

  /** The output is right if and only if every cached size it depends on is: a stale cache always shows. */
  lemma CachesDecideOutput(m: StatusData, caches: Caches)
    requires m.forkData.Some? ==> PackedSize(m.forkData.value.forks) < TWO31 && |F.Serialize(m.forkData.value)| < TWO31
    ensures SerializeWithCaches(m, caches) == Serialize(m) <==>
              (m.forkData.Some? ==>
                 && caches.forkData == |F.Serialize(m.forkData.value)|
                 && (if caches.forks > 0 then caches.forks else 0) == PackedSize(m.forkData.value.forks))
  {
    hide EncodeFields, ScalarRecords, ForksWithCaches, EncodeVarint, EncodeTag, F.Serialize;
    FreshCachesSerialize(m);
    if m.forkData.Some? {
      var f := m.forkData.value;
      CachesDecideForks(f, caches);
      CachesDecideForks(f, FreshCaches(m));
      F.SizeIsLength(f);
      if SerializeWithCaches(m, caches) == Serialize(m) {
        F.Cancel(EncodeFields(ScalarRecords(m)), ForksWithCaches(m.forkData, caches),
                 ForksWithCaches(m.forkData, FreshCaches(m)), EncodeFields(m.unknown));
      }
    } else {
      NoForks(caches, FreshCaches(m));
    }
  }

  lemma NoForks(a: Caches, b: Caches)
    ensures ForksWithCaches(None, a) == ForksWithCaches(None, b)
  {
  }

  lemma WrittenIsSerialized(target: Bytes, m: StatusData, caches: Caches)
    ensures PutLen(PutLen(PutVarint(target, 1, m.networkId), 2, m.totalDifficulty), 3, m.bestHash)
            + ForksWithCaches(m.forkData, caches) + EncodeFields(m.unknown) == target + SerializeWithCaches(m, caches)
  {
    var r1 := OptVarint(1, m.networkId);
    var r2 := r1 + OptLen(2, m.totalDifficulty);
    assert [] + r1 == r1;
    assert target + EncodeFields([]) == target;
    PutVarintAppends(target, [], 1, m.networkId);
    PutLenAppends(target, r1, 2, m.totalDifficulty);
    PutLenAppends(target, r2, 3, m.bestHash);
    Regroup(target, EncodeFields(ScalarRecords(m)), ForksWithCaches(m.forkData, caches), EncodeFields(m.unknown));
  }

  lemma Regroup(t: Bytes, a: Bytes, b: Bytes, c: Bytes)
    ensures t + a + b + c == t + (a + b + c)
  {
  }

  // ---- The message object ----

  class StatusDataMessage {
    var networkId: U64
    var totalDifficulty: Bytes
    var bestHash: Bytes
    var forkData: F.ForksMessage?
    var unknown: seq<Field>
    var cachedSize: I32

    function ForkValue(): Option<F.Forks>
      reads this, forkData
    {
      if forkData == null then None else Some(forkData.Value())
    }

    function Value(): StatusData
      reads this, forkData
    {
      StatusData(networkId, totalDifficulty, bestHash, ForkValue(), unknown)
    }

    function CachedSizes(): Caches
      reads this, forkData
    {
      if forkData == null then Caches(0, 0) else Caches(forkData.cachedSize, forkData.forksCachedByteSize)
    }

    constructor ()
      ensures Value() == EMPTY
    {
      networkId, totalDifficulty, bestHash, forkData, unknown, cachedSize := 0, [], [], null, [], 0;
    }

    method Clear()
      modifies this
      ensures Value() == EMPTY && forkData == null
    {
      totalDifficulty := [];
      bestHash := [];
      forkData := null;
      networkId := 0;
      unknown := [];
    }

    /** `_internal_mutable_fork_data`: the submessage, created on first use. */
    method MutableForkData() returns (f: F.ForksMessage)
      modifies this`forkData
      ensures forkData == f && (old(forkData) != null ==> f == old(forkData)) && (old(forkData) == null ==> fresh(f))
      ensures f.Value() == old(ForkValue()).GetOr(F.EMPTY)
    {
      if forkData == null {
        forkData := new F.ForksMessage();
      }
      f := forkData;
    }

    method InternalParse(s: Bytes, depth: nat) returns (end: ParseEnd)
      modifies this, forkData
      ensures Ends(Decode(Apply, depth, old(Value()), s), end, Value())
      ensures forkData == old(forkData) || fresh(forkData)
    {
      var ptr := s;
      while ptr != []
        invariant forkData == old(forkData) || fresh(forkData)
        invariant Decode(Apply, depth, Value(), ptr) == Decode(Apply, depth, old(Value()), s)
        decreases |ptr|
      {
        var tag := ReadTag(ptr);
        if tag.Fail? { return NullPtr; }
        ghost var before := Value();
        var next := ParseField(tag.value, ptr[tag.size..], depth);
        DecodeTurn(Apply, depth, before, ptr, next, Value());
        if next.Return? { return next.end; }
        ptr := next.ptr;
      }
      end := AtLimit;
    }

    method ParseField(tag: U32, ptr: Bytes, depth: nat) returns (next: Next)
      modifies this, forkData
      ensures Takes(Apply, depth, old(Value()), tag, ptr, next, Value())
      ensures forkData == old(forkData) || fresh(forkData)
    {
      if tag / 8 == 1 && tag % 256 == 8 {
        assert tag == 8;
        var val := ReadVarint64(ptr);
        if val.Fail? { return Return(NullPtr); }
        networkId := val.value;
        return Continue(ptr[val.size..]);
      } else if tag / 8 == 2 && tag % 256 == 18 {
        assert tag == 18;
        var str := ReadLen(ptr);
        if str.Fail? { return Return(NullPtr); }
        totalDifficulty := str.value;
        return Continue(ptr[str.size..]);
      } else if tag / 8 == 3 && tag % 256 == 26 {
        assert tag == 26;
        var str := ReadLen(ptr);
        if str.Fail? { return Return(NullPtr); }
        bestHash := str.value;
        return Continue(ptr[str.size..]);
      } else if tag / 8 == 4 && tag % 256 == 34 {
        assert tag == 34;
        var ok := ParseMessage(ptr, depth);
        if !ok { return Return(NullPtr); }
        return Continue(ptr[ReadLen(ptr).size..]);
      }
      if tag % 8 == 4 || tag == 0 { return Return(AtTag(tag)); }
      var field := ReadPayload(depth, tag, ptr);
      if field.Fail? { return Return(NullPtr); }
      PayloadKind(depth, tag, ptr);
      unknown := unknown + [field.value];
      return Continue(ptr[field.size..]);
    }

    /** `ctx->ParseMessage` on the submessage: one level deeper, up to its own limit. */
    method ParseMessage(ptr: Bytes, depth: nat) returns (ok: bool)
      modifies this`forkData, forkData
      ensures ok <==> ReadLen(ptr).Ok? && ParseForks(depth, old(ForkValue()), ReadLen(ptr).value).Some?
      ensures ok ==> ForkValue() == ParseForks(depth, old(ForkValue()), ReadLen(ptr).value)
      ensures forkData == old(forkData) || fresh(forkData)
    {
      var f := MutableForkData();
      var extent := ReadLen(ptr);
      if extent.Fail? || depth == 0 { return false; }
      var end := f.InternalParse(extent.value, depth - 1);
      ok := end == AtLimit;
    }

    method InternalSerialize(target: Bytes) returns (out: Bytes)
      ensures out == target + SerializeWithCaches(Value(), CachedSizes())
    {
      hide EncodeVarint;
      out := target;
      if networkId != 0 { out := out + EncodeTag(1, 0) + EncodeVarint(networkId); }
      if |totalDifficulty| > 0 { out := out + EncodeTag(2, 2) + EncodeLen(totalDifficulty); }
      if |bestHash| > 0 { out := out + EncodeTag(3, 2) + EncodeLen(bestHash); }
      assert out == PutLen(PutLen(PutVarint(target, 1, networkId), 2, totalDifficulty), 3, bestHash);
      ghost var scalars := out;
      if forkData != null {
        var size := forkData.cachedSize;
        var prefix := EncodeVarint(if size < 0 then size + TWO32 else size);
        out := out + EncodeTag(4, 2) + prefix;
        out := forkData.InternalSerialize(out);
        Regroup(scalars, EncodeTag(4, 2), prefix, F.SerializeWithCache(forkData.Value(), forkData.forksCachedByteSize));
      }
      assert out == scalars + ForksWithCaches(ForkValue(), CachedSizes());
      if unknown != [] { out := out + EncodeFields(unknown); }
      WrittenIsSerialized(target, Value(), CachedSizes());
    }

    method ByteSizeLong() returns (totalSize: nat)
      modifies this`cachedSize, forkData
      ensures Value() == old(Value())
      ensures totalSize == ByteSize(Value())
      ensures cachedSize == ToI32(totalSize)
      ensures CachedSizes() == FreshCaches(Value())
    {
      totalSize := 0;
      if |totalDifficulty| > 0 { totalSize := totalSize + 1 + LenSize(|totalDifficulty|); }
      if |bestHash| > 0 { totalSize := totalSize + 1 + LenSize(|bestHash|); }
      if forkData != null {
        var size := forkData.ByteSizeLong();
        totalSize := totalSize + 1 + LenSize(size);
      }
      if networkId != 0 { totalSize := totalSize + 1 + VarintSize(networkId); }
      if unknown != [] {
        totalSize := totalSize + FieldsSize(unknown);
        cachedSize := ToI32(totalSize);
        return;
      }
      cachedSize := ToI32(totalSize);
    }

    /** How the runtime writes a message: the size pass, the 2 GiB limit, then the serializer. */
    method SerializeToBytes() returns (out: Option<Bytes>)
      modifies this`cachedSize, forkData
      ensures Value() == old(Value())
      ensures out == if ByteSize(Value()) < TWO31 then Some(Serialize(Value())) else None
      ensures out.Some? ==> |out.value| == ByteSize(Value())
    {
      var size := ByteSizeLong();
      if size >= TWO31 { return None; }
      BelowLimit(Value());
      FreshCachesSerialize(Value());
      SizeIsLength(Value());
      var bytes := InternalSerialize([]);
      assert [] + Serialize(Value()) == Serialize(Value());
      out := Some(bytes);
    }

    method MergeFrom(from: StatusDataMessage)
      requires from != this && (from.forkData != null ==> from.forkData != forkData)
      modifies this, forkData
      ensures Value() == Merge(old(Value()), old(from.Value()))
      ensures forkData == old(forkData) || fresh(forkData)
      ensures from.Value() == old(from.Value())
    {
      unknown := unknown + from.unknown;
      if |from.totalDifficulty| > 0 { totalDifficulty := from.totalDifficulty; }
      if |from.bestHash| > 0 { bestHash := from.bestHash; }
      if from.forkData != null {
        var f := MutableForkData();
        f.MergeFrom(from.forkData);
      }
      if from.networkId != 0 { networkId := from.networkId; }
    }

    method CopyFrom(from: StatusDataMessage)
      modifies this
      ensures Value() == old(from.Value())
      ensures from != this ==> forkData == null || fresh(forkData)
    {
      if from == this { return; }
      Clear();
      MergeMonoid(from.Value(), from.Value(), from.Value());
      MergeFrom(from);
    }
  }

  /** A message below the size limit has nested sizes below it too. */
  lemma BelowLimit(m: StatusData)
    requires ByteSize(m) < TWO31
    ensures m.forkData.Some? ==> PackedSize(m.forkData.value.forks) < TWO31 && |F.Serialize(m.forkData.value)| < TWO31
  {
    if m.forkData.Some? {
      F.SizeIsLength(m.forkData.value);
    }
  }
}
