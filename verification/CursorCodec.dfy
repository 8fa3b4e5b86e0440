/** `remote.Cursor`: the request message of the key-value stream. */
module CursorCodec {
  import opened Options
  import opened WireFormat
  import opened WireTheory
  import opened Decoding
  import opened Utf8

  datatype Cursor = Cursor(op: I32, bucketName: Bytes, cursor: U32, k: Bytes, v: Bytes, unknown: seq<Field>)

  const EMPTY: Cursor := Cursor(0, [], 0, [], [], [])

  predicate IsKnown(f: Field) {
    match f
    case Varint(num, _) => num == 1 || num == 3
    case Len(num, _) => num == 2 || num == 4 || num == 5
    case _ => false
  }

  /** What a parsed record does to the message. */
  function Apply(depth: nat, m: Cursor, f: Field): Option<Cursor> {
    if f.Varint? && f.num == 1 then Some(m.(op := ToI32(f.value)))
    else if f.Len? && f.num == 2 then (if IsUtf8(f.data) then Some(m.(bucketName := f.data)) else None)
    else if f.Varint? && f.num == 3 then Some(m.(cursor := ToU32(f.value)))
    else if f.Len? && f.num == 4 then Some(m.(k := f.data))
    else if f.Len? && f.num == 5 then Some(m.(v := f.data))
    else Some(m.(unknown := m.unknown + [f]))
  }

  function Parse(depth: nat, s: Bytes): Outcome<Cursor> {
    Decode(Apply, depth, EMPTY, s)
  }

  /** The records of a serialized message, in the order they are written. */
  function KnownRecords(m: Cursor): seq<Field> {
    OptVarint(1, SignExtend(m.op)) + OptLen(2, m.bucketName) + OptVarint(3, m.cursor) + OptLen(4, m.k) + OptLen(5, m.v)
  }

  function Serialize(m: Cursor): Bytes {
    EncodeFields(KnownRecords(m) + m.unknown)
  }

  function Merge(a: Cursor, b: Cursor): Cursor {
    Cursor(
      if b.op != 0 then b.op else a.op,
      if |b.bucketName| > 0 then b.bucketName else a.bucketName,
      if b.cursor != 0 then b.cursor else a.cursor,
      if |b.k| > 0 then b.k else a.k,
      if |b.v| > 0 then b.v else a.v,
      a.unknown + b.unknown)
  }

  /** What a message must satisfy to survive the wire. */
  predicate WellFormed(depth: nat, m: Cursor) {
    && IsUtf8(m.bucketName)
    && |m.bucketName| < TWO31 && |m.k| < TWO31 && |m.v| < TWO31
    && ValidFields(m.unknown, depth)
    && forall f | f in m.unknown :: !IsKnown(f)
  }

  // ---- Lemmas ----

  lemma SignExtendRoundTrip(x: I32)
    ensures ToI32(SignExtend(x)) == x
    ensures SignExtend(x) == 0 <==> x == 0
  {
    if x < 0 {
      assert x + TWO64 == (x + TWO32) + TWO32 * (TWO32 - 1);
      assert (x + TWO64) % 0x1_0000_0000 == x + TWO32;
    }
  }

  lemma FoldUnknown(depth: nat, m: Cursor, us: seq<Field>)
    requires forall f | f in us :: !IsKnown(f)
    ensures Fold(Apply, depth, m, us) == Some(m.(unknown := m.unknown + us))
  {
    FoldStored(Apply, depth, m, us, (m: Cursor) => m.unknown, (m: Cursor, a: seq<Field>) => m.(unknown := a));
  }

  lemma FoldKnown(depth: nat, a: Cursor, b: Cursor)
    requires IsUtf8(b.bucketName)
    ensures Fold(Apply, depth, a, KnownRecords(b)) == Some(Merge(a, b).(unknown := a.unknown))
  {
    SignExtendRoundTrip(b.op);
    var r1 := OptVarint(1, SignExtend(b.op));
    var r2 := r1 + OptLen(2, b.bucketName);
    var r3 := r2 + OptVarint(3, b.cursor);
    var r4 := r3 + OptLen(4, b.k);
    FoldThenVarint(Apply, depth, a, [], 1, SignExtend(b.op));
    assert [] + r1 == r1;
    FoldThenLen(Apply, depth, a, r1, 2, b.bucketName);
    FoldThenVarint(Apply, depth, a, r2, 3, b.cursor);
    FoldThenLen(Apply, depth, a, r3, 4, b.k);
    FoldThenLen(Apply, depth, a, r4, 5, b.v);
  }

  lemma WrittenRecordsAreValid(depth: nat, m: Cursor)
    requires WellFormed(depth, m)
    ensures ValidFields(KnownRecords(m) + m.unknown, depth)
  {
  }

  /** Decoding a serialized message on top of another one merges it in. */
  lemma DecodeSerialized(depth: nat, a: Cursor, b: Cursor)
    requires WellFormed(depth, b)
    ensures Decode(Apply, depth, a, Serialize(b)) == Done(Merge(a, b))
  {
    WrittenRecordsAreValid(depth, b);
    DecodeWritten(Apply, depth, a, KnownRecords(b) + b.unknown, []);
    assert Serialize(b) + [] == Serialize(b);
    FoldConcat(Apply, depth, a, KnownRecords(b), b.unknown);
    FoldKnown(depth, a, b);
    FoldUnknown(depth, Merge(a, b).(unknown := a.unknown), b.unknown);
  }

  lemma ParsedIsWellFormed(depth: nat, s: Bytes)
    requires Parse(depth, s).Done?
    ensures WellFormed(depth, Parse(depth, s).msg)
  {
    DecodeKeeps(Apply, WellFormed, depth, EMPTY, s);
  }

  lemma MergeIdentity(m: Cursor)
    ensures Merge(EMPTY, m) == m && Merge(m, EMPTY) == m
  {
    assert [] + m.unknown == m.unknown && m.unknown + [] == m.unknown;
  }

  lemma MergeAssociative(a: Cursor, b: Cursor, c: Cursor)
    ensures Merge(Merge(a, b), c) == Merge(a, Merge(b, c))
  {
    assert a.unknown + b.unknown + c.unknown == a.unknown + (b.unknown + c.unknown);
  }

  /** Serializing and parsing gives a message back exactly when it is well-formed. */
  lemma RoundTrip(depth: nat, m: Cursor)
    ensures Parse(depth, Serialize(m)) == Done(m) <==> WellFormed(depth, m)
  {
    if WellFormed(depth, m) {
      DecodeSerialized(depth, EMPTY, m);
      MergeIdentity(m);
    }
    if Parse(depth, Serialize(m)) == Done(m) {
      ParsedIsWellFormed(depth, Serialize(m));
    }
  }

  /** Whatever bytes were accepted, their message survives being written and parsed again. */
  lemma Canonical(depth: nat, s: Bytes)
    requires Parse(depth, s).Done?
    ensures Parse(depth, Serialize(Parse(depth, s).msg)) == Parse(depth, s)
  {
    ParsedIsWellFormed(depth, s);
    RoundTrip(depth, Parse(depth, s).msg);
  }

  /** Appending a serialized message to any accepted bytes parses to the merge of both. */
  lemma ConcatIsMerge(depth: nat, s: Bytes, b: Cursor)
    requires Parse(depth, s).Done? && WellFormed(depth, b)
    ensures Parse(depth, s + Serialize(b)) == Done(Merge(Parse(depth, s).msg, b))
  {
    DecodeConcat(Apply, depth, EMPTY, s, Serialize(b));
    DecodeSerialized(depth, Parse(depth, s).msg, b);
  }

  /** The size pass, in the order the code adds it up. */
  function ByteSize(m: Cursor): nat {
    (if |m.bucketName| > 0 then 1 + LenSize(|m.bucketName|) else 0)
    + (if |m.k| > 0 then 1 + LenSize(|m.k|) else 0)
    + (if |m.v| > 0 then 1 + LenSize(|m.v|) else 0)
    + (if m.op != 0 then 1 + Int32Size(m.op) else 0)
    + (if m.cursor != 0 then 1 + VarintSize(m.cursor) else 0)
    + FieldsSize(m.unknown)
  }

  /** The size pass counts exactly the bytes written. */
  lemma SizeIsLength(m: Cursor)
    ensures |Serialize(m)| == ByteSize(m)
  {
    SignExtendRoundTrip(m.op);
    SignExtendSize(m.op);
    var r1 := OptVarint(1, SignExtend(m.op));
    var r2 := r1 + OptLen(2, m.bucketName);
    var r3 := r2 + OptVarint(3, m.cursor);
    var r4 := r3 + OptLen(4, m.k);
    assert [] + r1 == r1;
    SizeThenVarint([], 1, SignExtend(m.op));
    SizeThenLen(r1, 2, m.bucketName);
    SizeThenVarint(r2, 3, m.cursor);
    SizeThenLen(r3, 4, m.k);
    SizeThenLen(r4, 5, m.v);
    FieldsSizeConcat(KnownRecords(m), m.unknown);
    EncodedFieldsLength(KnownRecords(m) + m.unknown);
  }

  /** The writes of the serializer, one after the other. */
  lemma WrittenIsSerialized(target: Bytes, m: Cursor)
    ensures var out := PutLen(PutVarint(target, 1, SignExtend(m.op)), 2, m.bucketName);
            PutLen(PutLen(PutVarint(out, 3, m.cursor), 4, m.k), 5, m.v)
            + EncodeFields(m.unknown) == target + Serialize(m)
  {
    var r1 := OptVarint(1, SignExtend(m.op));
    var r2 := r1 + OptLen(2, m.bucketName);
    var r3 := r2 + OptVarint(3, m.cursor);
    var r4 := r3 + OptLen(4, m.k);
    assert [] + r1 == r1;
    assert target + EncodeFields([]) == target;
    PutVarintAppends(target, [], 1, SignExtend(m.op));
    PutLenAppends(target, r1, 2, m.bucketName);
    PutVarintAppends(target, r2, 3, m.cursor);
    PutLenAppends(target, r3, 4, m.k);
    PutLenAppends(target, r4, 5, m.v);
    PutUnknownAppends(target, KnownRecords(m), m.unknown);
  }

  // ---- The message object ----

  class CursorMessage {
    var op: I32
    var bucketName: Bytes
    var cursor: U32
    var k: Bytes
    var v: Bytes
    var unknown: seq<Field>
    var cachedSize: I32

    function Value(): Cursor
      reads this
    {
      Cursor(op, bucketName, cursor, k, v, unknown)
    }

    constructor ()
      ensures Value() == EMPTY
    {
      op, bucketName, cursor, k, v, unknown, cachedSize := 0, [], 0, [], [], [], 0;
    }

    method Clear()
      modifies this
      ensures Value() == EMPTY && cachedSize == old(cachedSize)
    {
      bucketName := [];
      k := [];
      v := [];
      op, cursor := 0, 0;
      unknown := [];
    }

    /** `s` holds the bytes up to the parser's limit; `ptr` is what lies after the read position. */
    method InternalParse(s: Bytes, depth: nat) returns (end: ParseEnd)
      modifies this
      ensures Ends(Decode(Apply, depth, old(Value()), s), end, Value())
    {
      var ptr := s;
      while ptr != []
        invariant Decode(Apply, depth, Value(), ptr) == Decode(Apply, depth, old(Value()), s)
        decreases |ptr|
      {
        var tag := ReadTag(ptr);
        if tag.Fail? { return NullPtr; }
        ghost var before := Value();
        var next := ParseField(tag.value, ptr[tag.size..], depth);
        DecodeTurn(Apply, depth, before, ptr, next, Value());
        if next.Return? { return next.end; }
        ptr := next.ptr;
      }
      end := AtLimit;
    }

    /** The switch over the tag. */
    method ParseField(tag: U32, ptr: Bytes, depth: nat) returns (next: Next)
      modifies this
      ensures Takes(Apply, depth, old(Value()), tag, ptr, next, Value())
    {
      if tag / 8 == 1 && tag % 256 == 8 {
        assert tag == 8;
        var val := ReadVarint64(ptr);
        if val.Fail? { return Return(NullPtr); }
        op := ToI32(val.value);
        return Continue(ptr[val.size..]);
      } else if tag / 8 == 2 && tag % 256 == 18 {
        assert tag == 18;
        var str := ReadLen(ptr);
        if str.Fail? || !IsUtf8(str.value) { return Return(NullPtr); }
        bucketName := str.value;
        return Continue(ptr[str.size..]);
      } else if tag / 8 == 3 && tag % 256 == 24 {
        assert tag == 24;
        var val := ReadVarint32(ptr);
        if val.Fail? { return Return(NullPtr); }
        Varint32IsLow64(ptr);
        cursor := val.value;
        return Continue(ptr[val.size..]);
      } else if tag / 8 == 4 && tag % 256 == 34 {
        assert tag == 34;
        var str := ReadLen(ptr);
        if str.Fail? { return Return(NullPtr); }
        k := str.value;
        return Continue(ptr[str.size..]);
      } else if tag / 8 == 5 && tag % 256 == 42 {
        assert tag == 42;
        var str := ReadLen(ptr);
        if str.Fail? { return Return(NullPtr); }
        v := str.value;
        return Continue(ptr[str.size..]);
      }
      if tag % 8 == 4 || tag == 0 { return Return(AtTag(tag)); }
      var field := ReadPayload(depth, tag, ptr);
      if field.Fail? { return Return(NullPtr); }
      PayloadKind(depth, tag, ptr);
      unknown := unknown + [field.value];
      return Continue(ptr[field.size..]);
    }

    method InternalSerialize(target: Bytes) returns (out: Bytes)
      ensures out == target + Serialize(Value())
    {
      hide EncodeVarint;
      out := target;
      if op != 0 { out := out + EncodeTag(1, 0) + EncodeVarint(SignExtend(op)); }
      if |bucketName| > 0 { out := out + EncodeTag(2, 2) + EncodeLen(bucketName); }
      if cursor != 0 { out := out + EncodeTag(3, 0) + EncodeVarint(cursor); }
      if |k| > 0 { out := out + EncodeTag(4, 2) + EncodeLen(k); }
      if |v| > 0 { out := out + EncodeTag(5, 2) + EncodeLen(v); }
      if unknown != [] { out := out + EncodeFields(unknown); }
      SignExtendRoundTrip(op);
      WrittenIsSerialized(target, Value());
    }

    method ByteSizeLong() returns (totalSize: nat)
      modifies this`cachedSize
      ensures totalSize == |Serialize(Value())|
      ensures cachedSize == ToI32(totalSize)
    {
      totalSize := 0;
      if |bucketName| > 0 { totalSize := totalSize + 1 + LenSize(|bucketName|); }
      if |k| > 0 { totalSize := totalSize + 1 + LenSize(|k|); }
      if |v| > 0 { totalSize := totalSize + 1 + LenSize(|v|); }
      if op != 0 { totalSize := totalSize + 1 + Int32Size(op); }
      if cursor != 0 { totalSize := totalSize + 1 + VarintSize(cursor); }
      SizeIsLength(Value());
      if unknown != [] {
        totalSize := totalSize + FieldsSize(unknown);
        cachedSize := ToI32(totalSize);
        return;
      }
      cachedSize := ToI32(totalSize);
    }

    method MergeFrom(from: CursorMessage)
      requires from != this
      modifies this
      ensures Value() == Merge(old(Value()), from.Value())
    {
      unknown := unknown + from.unknown;
      if |from.bucketName| > 0 { bucketName := from.bucketName; }
      if |from.k| > 0 { k := from.k; }
      if |from.v| > 0 { v := from.v; }
      if from.op != 0 { op := from.op; }
      if from.cursor != 0 { cursor := from.cursor; }
    }

    method CopyFrom(from: CursorMessage)
      modifies this
      ensures Value() == old(from.Value())
    {
      if from == this { return; }
      Clear();
      MergeIdentity(from.Value());
      MergeFrom(from);
    }
  }
}
