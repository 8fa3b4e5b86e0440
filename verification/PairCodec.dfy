/** `remote.Pair`: the reply message of the key-value stream. */
module PairCodec {
  import opened Options
  import opened WireFormat
  import opened WireTheory
  import opened Decoding

  datatype Pair = Pair(k: Bytes, v: Bytes, cursorId: U32, unknown: seq<Field>)

  const EMPTY: Pair := Pair([], [], 0, [])

  predicate IsKnown(f: Field) {
    match f
    case Varint(num, _) => num == 3
    case Len(num, _) => num == 1 || num == 2
    case _ => false
  }

  function Apply(depth: nat, m: Pair, f: Field): Option<Pair> {
    if f.Len? && f.num == 1 then Some(m.(k := f.data))
    else if f.Len? && f.num == 2 then Some(m.(v := f.data))
    else if f.Varint? && f.num == 3 then Some(m.(cursorId := ToU32(f.value)))
    else Some(m.(unknown := m.unknown + [f]))
  }

  function Parse(depth: nat, s: Bytes): Outcome<Pair> {
    Decode(Apply, depth, EMPTY, s)
  }

  function KnownRecords(m: Pair): seq<Field> {
    OptLen(1, m.k) + OptLen(2, m.v) + OptVarint(3, m.cursorId)
  }

  function Serialize(m: Pair): Bytes {
    EncodeFields(KnownRecords(m) + m.unknown)
  }

  function Merge(a: Pair, b: Pair): Pair {
    Pair(
      if |b.k| > 0 then b.k else a.k,
      if |b.v| > 0 then b.v else a.v,
      if b.cursorId != 0 then b.cursorId else a.cursorId,
      a.unknown + b.unknown)
  }

  predicate WellFormed(depth: nat, m: Pair) {
    && |m.k| < TWO31 && |m.v| < TWO31
    && ValidFields(m.unknown, depth)
    && forall f | f in m.unknown :: !IsKnown(f)
  }

  // ---- Lemmas ----

  lemma FoldUnknown(depth: nat, m: Pair, us: seq<Field>)
    requires forall f | f in us :: !IsKnown(f)
    ensures Fold(Apply, depth, m, us) == Some(m.(unknown := m.unknown + us))
  {
    FoldStored(Apply, depth, m, us, (m: Pair) => m.unknown, (m: Pair, a: seq<Field>) => m.(unknown := a));
  }

  lemma FoldKnown(depth: nat, a: Pair, b: Pair)
    ensures Fold(Apply, depth, a, KnownRecords(b)) == Some(Merge(a, b).(unknown := a.unknown))
  {
    var r1 := OptLen(1, b.k);
    var r2 := r1 + OptLen(2, b.v);
    FoldThenLen(Apply, depth, a, [], 1, b.k);
    assert [] + r1 == r1;
    FoldThenLen(Apply, depth, a, r1, 2, b.v);
    FoldThenVarint(Apply, depth, a, r2, 3, b.cursorId);
  }

  /** Decoding a serialized message on top of another one merges it in. */
  lemma DecodeSerialized(depth: nat, a: Pair, b: Pair)
    requires WellFormed(depth, b)
    ensures Decode(Apply, depth, a, Serialize(b)) == Done(Merge(a, b))
  {
    DecodeWritten(Apply, depth, a, KnownRecords(b) + b.unknown, []);
    assert Serialize(b) + [] == Serialize(b);
    FoldConcat(Apply, depth, a, KnownRecords(b), b.unknown);
    FoldKnown(depth, a, b);
    FoldUnknown(depth, Merge(a, b).(unknown := a.unknown), b.unknown);
  }

  lemma ParsedIsWellFormed(depth: nat, s: Bytes)
    requires Parse(depth, s).Done?
    ensures WellFormed(depth, Parse(depth, s).msg)
  {
    DecodeKeeps(Apply, WellFormed, depth, EMPTY, s);
  }

  lemma MergeIdentity(m: Pair)
    ensures Merge(EMPTY, m) == m && Merge(m, EMPTY) == m
  {
    assert [] + m.unknown == m.unknown && m.unknown + [] == m.unknown;
  }

  lemma MergeAssociative(a: Pair, b: Pair, c: Pair)
    ensures Merge(Merge(a, b), c) == Merge(a, Merge(b, c))
  {
    assert a.unknown + b.unknown + c.unknown == a.unknown + (b.unknown + c.unknown);
  }

  /** The condition asks nothing of the known fields but lengths below 2^31. */
  lemma RoundTrip(depth: nat, m: Pair)
    ensures Parse(depth, Serialize(m)) == Done(m) <==> WellFormed(depth, m)
  {
    if WellFormed(depth, m) {
      DecodeSerialized(depth, EMPTY, m);
      MergeIdentity(m);
    }
    if Parse(depth, Serialize(m)) == Done(m) {
      ParsedIsWellFormed(depth, Serialize(m));
    }
  }

  lemma Canonical(depth: nat, s: Bytes)
    requires Parse(depth, s).Done?
    ensures Parse(depth, Serialize(Parse(depth, s).msg)) == Parse(depth, s)
  {
    ParsedIsWellFormed(depth, s);
    RoundTrip(depth, Parse(depth, s).msg);
  }

  lemma ConcatIsMerge(depth: nat, s: Bytes, b: Pair)
    requires Parse(depth, s).Done? && WellFormed(depth, b)
    ensures Parse(depth, s + Serialize(b)) == Done(Merge(Parse(depth, s).msg, b))
  {
    DecodeConcat(Apply, depth, EMPTY, s, Serialize(b));
    DecodeSerialized(depth, Parse(depth, s).msg, b);
  }

  function ByteSize(m: Pair): nat {
    (if |m.k| > 0 then 1 + LenSize(|m.k|) else 0)
    + (if |m.v| > 0 then 1 + LenSize(|m.v|) else 0)
    + (if m.cursorId != 0 then 1 + VarintSize(m.cursorId) else 0)
    + FieldsSize(m.unknown)
  }

  lemma SizeIsLength(m: Pair)
    ensures |Serialize(m)| == ByteSize(m)
  {
    var r1 := OptLen(1, m.k);
    var r2 := r1 + OptLen(2, m.v);
    assert [] + r1 == r1;
    SizeThenLen([], 1, m.k);
    SizeThenLen(r1, 2, m.v);
    SizeThenVarint(r2, 3, m.cursorId);
    FieldsSizeConcat(KnownRecords(m), m.unknown);
    EncodedFieldsLength(KnownRecords(m) + m.unknown);
  }

  lemma WrittenIsSerialized(target: Bytes, m: Pair)
    ensures PutVarint(PutLen(PutLen(target, 1, m.k), 2, m.v), 3, m.cursorId) + EncodeFields(m.unknown) ==
            target + Serialize(m)
  {
    var r1 := OptLen(1, m.k);
    var r2 := r1 + OptLen(2, m.v);
    assert [] + r1 == r1;
    assert target + EncodeFields([]) == target;
    PutLenAppends(target, [], 1, m.k);
    PutLenAppends(target, r1, 2, m.v);
    PutVarintAppends(target, r2, 3, m.cursorId);
    PutUnknownAppends(target, KnownRecords(m), m.unknown);
  }

  // ---- The message object ----

  class PairMessage {
    var k: Bytes
    var v: Bytes
    var cursorId: U32
    var unknown: seq<Field>
    var cachedSize: I32

    function Value(): Pair
      reads this
    {
      Pair(k, v, cursorId, unknown)
    }

    constructor ()
      ensures Value() == EMPTY
    {
      k, v, cursorId, unknown, cachedSize := [], [], 0, [], 0;
    }

    method Clear()
      modifies this
      ensures Value() == EMPTY && cachedSize == old(cachedSize)
    {
      k := [];
      v := [];
      cursorId := 0;
      unknown := [];
    }

    method InternalParse(s: Bytes, depth: nat) returns (end: ParseEnd)
      modifies this
      ensures Ends(Decode(Apply, depth, old(Value()), s), end, Value())
    {
      var ptr := s;
      while ptr != []
        invariant Decode(Apply, depth, Value(), ptr) == Decode(Apply, depth, old(Value()), s)
        decreases |ptr|
      {
        var tag := ReadTag(ptr);
        if tag.Fail? { return NullPtr; }
        ghost var before := Value();
        var next := ParseField(tag.value, ptr[tag.size..], depth);
        DecodeTurn(Apply, depth, before, ptr, next, Value());
        if next.Return? { return next.end; }
        ptr := next.ptr;
      }
      end := AtLimit;
    }

    method ParseField(tag: U32, ptr: Bytes, depth: nat) returns (next: Next)
      modifies this
      ensures Takes(Apply, depth, old(Value()), tag, ptr, next, Value())
    {
      if tag / 8 == 1 && tag % 256 == 10 {
        assert tag == 10;
        var str := ReadLen(ptr);
        if str.Fail? { return Return(NullPtr); }
        k := str.value;
        return Continue(ptr[str.size..]);
      } else if tag / 8 == 2 && tag % 256 == 18 {
        assert tag == 18;
        var str := ReadLen(ptr);
        if str.Fail? { return Return(NullPtr); }
        v := str.value;
        return Continue(ptr[str.size..]);
      } else if tag / 8 == 3 && tag % 256 == 24 {
        assert tag == 24;
        var val := ReadVarint32(ptr);
        if val.Fail? { return Return(NullPtr); }
        Varint32IsLow64(ptr);
        cursorId := val.value;
        return Continue(ptr[val.size..]);
      }
      if tag % 8 == 4 || tag == 0 { return Return(AtTag(tag)); }
      var field := ReadPayload(depth, tag, ptr);
      if field.Fail? { return Return(NullPtr); }
      PayloadKind(depth, tag, ptr);
      unknown := unknown + [field.value];
      return Continue(ptr[field.size..]);
    }

    method InternalSerialize(target: Bytes) returns (out: Bytes)
      ensures out == target + Serialize(Value())
    {
      out := target;
      if |k| > 0 { out := out + EncodeTag(1, 2) + EncodeLen(k); }
      if |v| > 0 { out := out + EncodeTag(2, 2) + EncodeLen(v); }
      if cursorId != 0 { out := out + EncodeTag(3, 0) + EncodeVarint(cursorId); }
      if unknown != [] { out := out + EncodeFields(unknown); }
      WrittenIsSerialized(target, Value());
    }

    method ByteSizeLong() returns (totalSize: nat)
      modifies this`cachedSize
      ensures totalSize == |Serialize(Value())|
      ensures cachedSize == ToI32(totalSize)
    {
      totalSize := 0;
      if |k| > 0 { totalSize := totalSize + 1 + LenSize(|k|); }
      if |v| > 0 { totalSize := totalSize + 1 + LenSize(|v|); }
      if cursorId != 0 { totalSize := totalSize + 1 + VarintSize(cursorId); }
      SizeIsLength(Value());
      if unknown != [] {
        totalSize := totalSize + FieldsSize(unknown);
        cachedSize := ToI32(totalSize);
        return;
      }
      cachedSize := ToI32(totalSize);
    }

    method MergeFrom(from: PairMessage)
      requires from != this
      modifies this
      ensures Value() == Merge(old(Value()), from.Value())
    {
      unknown := unknown + from.unknown;
      if |from.k| > 0 { k := from.k; }
      if |from.v| > 0 { v := from.v; }
      if from.cursorId != 0 { cursorId := from.cursorId; }
    }

    method CopyFrom(from: PairMessage)
      modifies this
      ensures Value() == old(from.Value())
    {
      if from == this { return; }
      Clear();
      MergeIdentity(from.Value());
      MergeFrom(from);
    }
  }
}
