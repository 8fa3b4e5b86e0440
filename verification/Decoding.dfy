/**
 The loop every generated parser runs: read a record, let the message take it, go on after it.

 `apply(depth, m, f)` is what the message does with record `f`; `None` is a parse failure.
 */
module Decoding {
  import opened Options
  import opened WireFormat
  import opened WireTheory

  /** What a message does with a record at some depth; `None` is a parse failure. */
  type Handler<!M> = (nat, M, Field) -> Option<M>

  /** `Done`: the whole extent was consumed.  `Stopped`: the loop met tag 0 or an end-group tag. */
  datatype Outcome<+M> = Done(msg: M) | Stopped(msg: M, tag: U32) | Failed

  function Decode<M>(apply: Handler<M>, depth: nat, m: M, s: Bytes): Outcome<M>
    decreases |s|
  {
    if s == [] then Done(m)
    else match ReadField(depth, s)
      case Malformed => Failed
      case Stop(tag, _) => Stopped(m, tag)
      case Record(f, n) =>
        match apply(depth, m, f)
        case None => Failed
        case Some(m') => Decode(apply, depth, m', s[n..])
  }

  /** How `_InternalParse` returns: at the limit, at a stopping tag, or with a null pointer. */
  datatype ParseEnd = AtLimit | AtTag(tag: U32) | NullPtr

  /** `end` and the message left behind, `m`, are those of outcome `o`. */
  predicate Ends<M(==)>(o: Outcome<M>, end: ParseEnd, m: M) {
    match o
    case Done(m') => end == AtLimit && m == m'
    case Stopped(m', tag) => end == AtTag(tag) && m == m'
    case Failed => end == NullPtr
  }

  /** The same on records instead of bytes. */
  function Fold<M>(apply: Handler<M>, depth: nat, m: M, fs: seq<Field>): Option<M>
  {
    if fs == [] then Some(m)
    else match apply(depth, m, fs[0])
      case None => None
      case Some(m') => Fold(apply, depth, m', fs[1..])
  }

  /** proto3 fields at their default are not written. */
  function OptVarint(num: FieldNumber, v: U64): seq<Field> {
    if v != 0 then [Varint(num, v)] else []
  }

  function OptLen(num: FieldNumber, data: Bytes): seq<Field> {
    if |data| > 0 then [Len(num, data)] else []
  }

  /** What a parser does after one record: go on with the remaining bytes, or return. */
  datatype Next = Continue(ptr: Bytes) | Return(end: ParseEnd)

  /** One turn of the parse loop: the record after `tag`, at the front of `ptr`, takes message `m` to `m'`. */
  predicate Takes<M(==)>(apply: Handler<M>, depth: nat, m: M, tag: U32, ptr: Bytes, next: Next, m': M) {
    if tag == 0 || tag % 8 == 4 then next == Return(AtTag(tag)) && m' == m
    else match ReadPayload(depth, tag, ptr)
      case Fail => next == Return(NullPtr)
      case Ok(f, n) =>
        match apply(depth, m, f)
        case None => next == Return(NullPtr)
        case Some(m'') => next == Continue(ptr[n..]) && m' == m''
  }

  lemma TagSize(s: Bytes)
    requires ReadTag(s).Ok?
    ensures 0 < ReadTag(s).size <= |s|
  {
  }

  lemma FoldCons<M>(apply: Handler<M>, depth: nat, m: M, f: Field, fs: seq<Field>)
    requires apply(depth, m, f).Some?
    ensures Fold(apply, depth, m, [f] + fs) == Fold(apply, depth, apply(depth, m, f).value, fs)
  {
    assert ([f] + fs)[1..] == fs;
  }

  lemma {:induction false} FoldConcat<M>(apply: Handler<M>, depth: nat, m: M, a: seq<Field>, b: seq<Field>)
    ensures Fold(apply, depth, m, a + b) ==
            match Fold(apply, depth, m, a)
            case None => None
            case Some(m') => Fold(apply, depth, m', b)
    decreases |a|
  {
    if a == [] {
      assert a + b == b;
    } else {
      assert (a + b)[1..] == a[1..] + b;
      match apply(depth, m, a[0])
      case None =>
      case Some(m') => FoldConcat(apply, depth, m', a[1..], b);
    }
  }

  /** Records that are only stored pile up in order.  `stored` and `store` read and replace the pile. */
  lemma {:induction false} FoldStored<M(!new)>(
    apply: Handler<M>, depth: nat, m: M, us: seq<Field>, stored: M -> seq<Field>, store: (M, seq<Field>) -> M)
    requires forall m: M, f: Field {:trigger apply(depth, m, f)} | f in us ::
               apply(depth, m, f) == Some(store(m, stored(m) + [f]))
    requires forall m: M, a: seq<Field> {:trigger stored(store(m, a))} :: stored(store(m, a)) == a
    requires forall m: M, a: seq<Field>, b: seq<Field> {:trigger store(store(m, a), b)} ::
               store(store(m, a), b) == store(m, b)
    requires forall m: M {:trigger store(m, stored(m))} :: store(m, stored(m)) == m
    ensures Fold(apply, depth, m, us) == Some(store(m, stored(m) + us))
    decreases |us|
  {
    if us == [] {
      assert stored(m) + us == stored(m);
    } else {
      assert us[0] in us;
      var m' := store(m, stored(m) + [us[0]]);
      FoldStored(apply, depth, m', us[1..], stored, store);
      assert stored(m) + [us[0]] + us[1..] == stored(m) + us;
    }
  }

  /** `ReadField` by the tag and the payload after it. */
  lemma ReadFieldParts(depth: nat, s: Bytes)
    requires ReadTag(s).Ok?
    ensures var tag, n := ReadTag(s).value, ReadTag(s).size;
            var payload := ReadPayload(depth, tag, s[n..]);
            ReadField(depth, s) ==
              if tag == 0 || tag % 8 == 4 then Stop(tag, n)
              else if payload.Ok? then Record(payload.value, n + payload.size) else Malformed
  {
    hide ReadTag, ReadPayload;
  }

  lemma DecodeOne<M>(apply: Handler<M>, depth: nat, m: M, s: Bytes)
    requires s != []
    ensures ReadField(depth, s).Malformed? ==> Decode(apply, depth, m, s) == Failed
    ensures ReadField(depth, s).Stop? ==> Decode(apply, depth, m, s) == Stopped(m, ReadField(depth, s).tag)
    ensures ReadField(depth, s).Record? ==>
              var m' := apply(depth, m, ReadField(depth, s).field);
              Decode(apply, depth, m, s) ==
                if m'.Some? then Decode(apply, depth, m'.value, s[ReadField(depth, s).size..]) else Failed
  {
    hide ReadField;
  }

  /** A turn of the parse loop is a turn of `Decode`. */
  lemma DecodeTurn<M>(apply: Handler<M>, depth: nat, m: M, ptr: Bytes, next: Next, m': M)
    requires ReadTag(ptr).Ok? && Takes(apply, depth, m, ReadTag(ptr).value, ptr[ReadTag(ptr).size..], next, m')
    ensures next.Return? ==> Ends(Decode(apply, depth, m, ptr), next.end, m')
    ensures next.Continue? ==> |next.ptr| < |ptr| && Decode(apply, depth, m', next.ptr) == Decode(apply, depth, m, ptr)
  {
    hide ReadTag, ReadPayload, ReadField, Decode;
    ReadFieldParts(depth, ptr);
    TagSize(ptr);
    DecodeOne(apply, depth, m, ptr);
    var n, tag := ReadTag(ptr).size, ReadTag(ptr).value;
    var payload := ReadPayload(depth, tag, ptr[n..]);
    if payload.Ok? {
      assert ptr[n + payload.size..] == ptr[n..][payload.size..];
    }
  }

  /** One more optional field in a fold. */
  lemma FoldThenVarint<M>(apply: Handler<M>, depth: nat, m: M, done: seq<Field>, num: FieldNumber, v: U64)
    requires Fold(apply, depth, m, done).Some?
    ensures Fold(apply, depth, m, done + OptVarint(num, v)) ==
            if v != 0 then apply(depth, Fold(apply, depth, m, done).value, Varint(num, v))
            else Fold(apply, depth, m, done)
  {
    FoldConcat(apply, depth, m, done, OptVarint(num, v));
  }

  lemma FoldThenLen<M>(apply: Handler<M>, depth: nat, m: M, done: seq<Field>, num: FieldNumber, data: Bytes)
    requires Fold(apply, depth, m, done).Some?
    ensures Fold(apply, depth, m, done + OptLen(num, data)) ==
            if |data| > 0 then apply(depth, Fold(apply, depth, m, done).value, Len(num, data))
            else Fold(apply, depth, m, done)
  {
    FoldConcat(apply, depth, m, done, OptLen(num, data));
  }

  /** One more optional field in the size pass. */
  lemma SizeThenVarint(done: seq<Field>, num: FieldNumber, v: U64)
    ensures FieldsSize(done + OptVarint(num, v)) ==
            FieldsSize(done) + if v != 0 then VarintSize(num * 8) + VarintSize(v) else 0
  {
    FieldsSizeConcat(done, OptVarint(num, v));
  }

  lemma SizeThenLen(done: seq<Field>, num: FieldNumber, data: Bytes)
    ensures FieldsSize(done + OptLen(num, data)) ==
            FieldsSize(done) + if |data| > 0 then VarintSize(num * 8) + LenSize(|data|) else 0
  {
    FieldsSizeConcat(done, OptLen(num, data));
  }

  /** Writing an optional field to the output stream: nothing at its default. */
  function PutVarint(out: Bytes, num: FieldNumber, v: U64): Bytes {
    if v != 0 then out + EncodeTag(num, 0) + EncodeVarint(v) else out
  }

  function PutLen(out: Bytes, num: FieldNumber, data: Bytes): Bytes {
    if |data| > 0 then out + EncodeTag(num, 2) + EncodeLen(data) else out
  }

  lemma PutVarintAppends(target: Bytes, done: seq<Field>, num: FieldNumber, v: U64)
    ensures PutVarint(target + EncodeFields(done), num, v) == target + EncodeFields(done + OptVarint(num, v))
  {
    hide EncodeVarint;
    EncodeFieldsConcat(done, OptVarint(num, v));
    EncodeOneField(Varint(num, v));
    assert target + (EncodeFields(done) + EncodeFields(OptVarint(num, v))) ==
           target + EncodeFields(done) + EncodeFields(OptVarint(num, v));
  }

  lemma PutLenAppends(target: Bytes, done: seq<Field>, num: FieldNumber, data: Bytes)
    ensures PutLen(target + EncodeFields(done), num, data) == target + EncodeFields(done + OptLen(num, data))
  {
    hide EncodeVarint;
    EncodeFieldsConcat(done, OptLen(num, data));
    EncodeOneField(Len(num, data));
    assert target + (EncodeFields(done) + EncodeFields(OptLen(num, data))) ==
           target + EncodeFields(done) + EncodeFields(OptLen(num, data));
  }

  lemma PutUnknownAppends(target: Bytes, done: seq<Field>, us: seq<Field>)
    ensures target + EncodeFields(done) + EncodeFields(us) == target + EncodeFields(done + us)
  {
    EncodeFieldsConcat(done, us);
    assert target + (EncodeFields(done) + EncodeFields(us)) == target + EncodeFields(done) + EncodeFields(us);
  }

  /** Decoding written records is folding over the records themselves. */
  lemma {:induction false} DecodeWritten<M>(apply: Handler<M>, depth: nat, m: M, fs: seq<Field>, rest: Bytes)
    requires ValidFields(fs, depth)
    ensures Decode(apply, depth, m, EncodeFields(fs) + rest) ==
            match Fold(apply, depth, m, fs)
            case None => Failed
            case Some(m') => Decode(apply, depth, m', rest)
    decreases |fs|
  {
    if fs == [] {
      assert EncodeFields(fs) + rest == rest;
    } else {
      var after := EncodeFields(fs[1..]) + rest;
      assert EncodeFields(fs) + rest == EncodeField(fs[0]) + after;
      FieldRoundTrip(fs[0], depth, after);
      assert (EncodeField(fs[0]) + after)[|EncodeField(fs[0])|..] == after;
      match apply(depth, m, fs[0])
      case None =>
      case Some(m') => DecodeWritten(apply, depth, m', fs[1..], rest);
    }
  }

  /** Bytes appended after a consumed extent are decoded into the message it produced. */
  lemma {:induction false} DecodeConcat<M>(apply: Handler<M>, depth: nat, m: M, s: Bytes, t: Bytes)
    requires Decode(apply, depth, m, s).Done?
    ensures Decode(apply, depth, m, s + t) == Decode(apply, depth, Decode(apply, depth, m, s).msg, t)
    decreases |s|
  {
    hide ReadField;
    if s == [] {
      assert s + t == t;
    } else {
      hide Decode;
      var r := ReadField(depth, s);
      ReadFieldPrefix(depth, s, t);
      DecodeOne(apply, depth, m, s);
      DecodeOne(apply, depth, m, s + t);
      assert (s + t)[r.size..] == s[r.size..] + t;
      var m' := apply(depth, m, r.field).value;
      DecodeConcat(apply, depth, m', s[r.size..], t);
    }
  }

  /** A property every accepted record keeps holds of every decoded message. */
  lemma {:induction false} DecodeKeeps<M(!new)>(
    apply: Handler<M>, inv: (nat, M) -> bool, depth: nat, m: M, s: Bytes)
    requires forall m: M, f: Field {:trigger apply(depth, m, f)} ::
               inv(depth, m) && ValidField(f, depth) && apply(depth, m, f).Some? ==>
                 inv(depth, apply(depth, m, f).value)
    requires inv(depth, m) && Decode(apply, depth, m, s).Done?
    ensures inv(depth, Decode(apply, depth, m, s).msg)
    decreases |s|
  {
    if s != [] {
      var r := ReadField(depth, s);
      ReadFieldIsCanonical(depth, s);
      DecodeKeeps(apply, inv, depth, apply(depth, m, r.field).value, s[r.size..]);
    }
  }

  /** A cost every accepted record raises by at most its own size is bounded by the input's length. */
  lemma {:induction false} DecodeCosts<M(!new)>(
    apply: Handler<M>, cost: M -> nat, depth: nat, m: M, s: Bytes)
    requires forall m: M, f: Field {:trigger apply(depth, m, f)} ::
               ValidField(f, depth) && apply(depth, m, f).Some? ==>
                 cost(apply(depth, m, f).value) <= cost(m) + FieldSize(f)
    requires Decode(apply, depth, m, s).Done?
    ensures cost(Decode(apply, depth, m, s).msg) <= cost(m) + |s|
    decreases |s|
  {
    if s != [] {
      var r := ReadField(depth, s);
      ReadFieldIsCanonical(depth, s);
      DecodeCosts(apply, cost, depth, apply(depth, m, r.field).value, s[r.size..]);
    }
  }
}
