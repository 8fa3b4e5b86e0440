/** Laws of the wire format: what is written is read back, and re-encoding never needs more bytes. */
module WireTheory {
  import opened WireFormat

  // ---- Varints ----

  function Pow128(k: nat): nat
  {
    if k == 0 then 1 else 128 * Pow128(k - 1)
  }

  lemma Pow128Bounds()
    ensures Pow128(5) > TWO32 && Pow128(9) == TWO64 / 2 && Pow128(10) > TWO64
  {
    assert Pow128(5) == 128 * 128 * 128 * 128 * 128 by {
      assert Pow128(3) == 128 * 128 * 128;
    }
    assert Pow128(10) == Pow128(5) * 128 * 128 * 128 * 128 * 128 by {
      assert Pow128(8) == 128 * 128 * 128 * Pow128(5) by { assert Pow128(6) == 128 * Pow128(5); }
      assert Pow128(9) == 128 * Pow128(8);
    }
  }

  lemma {:induction false} EncodedVarintLength(n: nat)
    ensures |EncodeVarint(n)| == VarintSize(n)
    decreases n
  {
    if n >= 128 { EncodedVarintLength(n / 128); }
  }

  /** The number that groups of seven bits stand for, least significant group first. */
  function SevenBitValue(s: Bytes): nat {
    if s == [] then 0 else SevenBitValue(s[..|s| - 1]) + s[|s| - 1] % 128 * Pow128(|s| - 1)
  }

  lemma {:induction false} SevenBitCons(b: Byte, s: Bytes)
    ensures SevenBitValue([b] + s) == b % 128 + 128 * SevenBitValue(s)
    decreases |s|
  {
    if s == [] {
      assert [b] + s == [b] && [b][..0] == [];
    } else {
      var n := |s| - 1;
      SevenBitCons(b, s[..n]);
      assert ([b] + s)[..|s|] == [b] + s[..n];
      assert s[n] % 128 * (128 * Pow128(n)) == 128 * (s[n] % 128 * Pow128(n));
    }
  }

  /** Base 128 varints: seven bits a byte, low bits first, the top bit set on all bytes but the last, no spare bytes. */
  lemma {:induction false} VarintMeaning(n: nat)
    ensures var s := EncodeVarint(n);
            && SevenBitValue(s) == n
            && (forall i | 0 <= i < |s| :: s[i] >= 128 <==> i < |s| - 1)
            && (s[|s| - 1] == 0 ==> |s| == 1)
    decreases n
  {
    if n < 128 {
      assert [n][..0] == [];
    } else {
      VarintMeaning(n / 128);
      SevenBitCons(128 + n % 128, EncodeVarint(n / 128));
    }
  }

  lemma {:induction false} VarintRoundTrip(n: nat, rest: Bytes, limit: nat)
    requires 0 < limit && n < Pow128(limit)
    ensures ReadVarint(EncodeVarint(n) + rest, limit) == Ok(n, VarintSize(n))
    decreases limit
  {
    if n >= 128 {
      VarintRoundTrip(n / 128, rest, limit - 1);
      assert (EncodeVarint(n) + rest)[1..] == EncodeVarint(n / 128) + rest;
    }
  }

  /** Some byte within the limit is below 128. */
  predicate HasEnd(s: Bytes, limit: nat) {
    exists i :: 0 <= i < limit && i < |s| && s[i] < 128
  }

  lemma EndLater(s: Bytes, limit: nat)
    requires limit > 0 && s != []
    ensures HasEnd(s, limit) <==> s[0] < 128 || HasEnd(s[1..], limit - 1)
  {
    if i :| 0 < i < limit && i < |s| && s[i] < 128 { assert s[1..][i - 1] == s[i]; }
    if i :| 0 <= i < limit - 1 && i < |s[1..]| && s[1..][i] < 128 { assert s[i + 1] == s[1..][i]; }
  }

  /**
   Reading succeeds exactly if a byte below 128 comes within the limit; the value is that of all groups up to it,
   also when there are more of them than needed.
   */
  lemma {:induction false} ReadVarintMeaning(s: Bytes, limit: nat)
    ensures ReadVarint(s, limit).Ok? <==> HasEnd(s, limit)
    ensures var r := ReadVarint(s, limit);
            r.Ok? ==>
              && s[r.size - 1] < 128 && (forall i | 0 <= i < r.size - 1 :: s[i] >= 128)
              && r.value == SevenBitValue(s[..r.size])
    decreases limit
  {
    if limit > 0 && s != [] {
      var r := ReadVarint(s[1..], limit - 1);
      ReadVarintMeaning(s[1..], limit - 1);
      EndLater(s, limit);
      hide HasEnd;
      if s[0] < 128 {
        assert s[..1] == [s[0]] + [] && SevenBitValue([]) == 0;
        SevenBitCons(s[0], []);
      } else if r.Ok? {
        assert s[..r.size + 1] == [s[0]] + s[1..][..r.size];
        SevenBitCons(s[0], s[1..][..r.size]);
      }
    }
  }

  /** Machine words keep the low bits. */
  lemma WordsMeaning(n: nat)
    ensures ToU32(n) == n % 0x1_0000_0000 && ToU64(n) == n % 0x1_0000_0000_0000_0000
  {
  }

  /** The readers built on it: limits of ten and five bytes, and what is done with larger values. */
  lemma ReadersMeaning(s: Bytes)
    ensures var r := ReadVarint(s, 10);
            && ReadVarint64(s) == (if r.Ok? then Ok(ToU64(r.value), r.size) else Fail)
            && ReadVarint32(s) == (if r.Ok? then Ok(ToU32(r.value), r.size) else Fail)
    ensures var r := ReadVarint(s, 5);
            && ReadTag(s) == (if r.Ok? then Ok(ToU32(r.value), r.size) else Fail)
  {
    hide ReadVarint, ToU32, ToU64;
  }

  lemma ReadSizeMeaning(s: Bytes)
    ensures var r := ReadVarint(s, 5);
            ReadSize(s) == if r.Ok? && r.value < 0x8000_0000 then Ok(r.value, r.size) else Fail
  {
    hide ReadVarint;
  }

  /** A length is below 2^31 and its payload must be there. */
  lemma ReadLenMeaning(s: Bytes)
    ensures var r := ReadVarint(s, 5);
            ReadLen(s).Ok? <==> r.Ok? && r.value < 0x8000_0000 && r.size + r.value <= |s|
    ensures ReadLen(s).Ok? ==>
              var n, k := ReadVarint(s, 5).size, ReadVarint(s, 5).value;
              ReadLen(s).value == s[n..n + k] && ReadLen(s).size == n + k
  {
    hide ReadVarint, ReadSize;
    ReadSizeMeaning(s);
  }

  lemma {:induction false} VarintSizeMonotone(a: nat, b: nat)
    requires a <= b
    ensures VarintSize(a) <= VarintSize(b)
    decreases b
  {
    if a >= 128 { VarintSizeMonotone(a / 128, b / 128); }
  }

  /** Splitting a length prefix in two never saves bytes. */
  lemma VarintSizeSubadditive(a: nat, b: nat)
    ensures VarintSize(a + b) <= VarintSize(a) + VarintSize(b)
  {
    if a + b >= 128 {
      VarintSizeMonotone((a + b) / 128, if a < b then b else a);
    }
  }

  /** A canonical varint is the shortest encoding of the value that was read. */
  lemma {:induction false} ReadVarintIsLongest(s: Bytes, limit: nat)
    requires ReadVarint(s, limit).Ok?
    ensures VarintSize(ReadVarint(s, limit).value) <= ReadVarint(s, limit).size
    decreases limit
  {
    if s[0] >= 128 {
      ReadVarintIsLongest(s[1..], limit - 1);
      var r := ReadVarint(s[1..], limit - 1);
      assert (s[0] - 128 + 128 * r.value) / 128 == r.value;
    }
  }

  lemma Varint64RoundTrip(v: U64, rest: Bytes)
    ensures ReadVarint64(EncodeVarint(v) + rest) == Ok(v, VarintSize(v))
  {
    Pow128Bounds();
    VarintRoundTrip(v, rest, 10);
  }

  lemma Varint64IsLongest(s: Bytes)
    requires ReadVarint64(s).Ok?
    ensures VarintSize(ReadVarint64(s).value) <= ReadVarint64(s).size
  {
    ReadVarintIsLongest(s, 10);
    var v := ReadVarint(s, 10).value;
    VarintSizeMonotone(ToU64(v), v);
  }

  lemma Varint32IsLow64(s: Bytes)
    requires ReadVarint32(s).Ok?
    ensures ReadVarint64(s).Ok? && ReadVarint64(s).size == ReadVarint32(s).size
    ensures ToU32(ReadVarint64(s).value) == ReadVarint32(s).value
  {
    LowBits(ReadVarint(s, 10).value);
  }

  lemma LowBits(v: nat)
    ensures v % 0x1_0000_0000_0000_0000 % 0x1_0000_0000 == v % 0x1_0000_0000
  {
    var high, low := v / 0x1_0000_0000_0000_0000, v % 0x1_0000_0000_0000_0000;
    var q, r := low / 0x1_0000_0000, low % 0x1_0000_0000;
    assert v == 0x1_0000_0000 * (high * 0x1_0000_0000 + q) + r;
  }

  lemma {:induction false} VarintSizeExact(n: nat, k: nat)
    requires k > 0 && Pow128(k - 1) <= n < Pow128(k)
    ensures VarintSize(n) == if n == 0 then 1 else k
    decreases k
  {
    if k > 1 { VarintSizeExact(n / 128, k - 1); }
  }

  lemma SignExtendSize(x: I32)
    ensures VarintSize(SignExtend(x)) == Int32Size(x)
  {
    if x < 0 {
      Pow128Bounds();
      VarintSizeExact(SignExtend(x), 10);
    }
  }

  /** The 64-bit value that is sent for `x` is `x` again, read in two's complement. */
  lemma SignExtendMeaning(x: I32)
    ensures var v := SignExtend(x);
            (if v < 0x8000_0000_0000_0000 then v else v - 0x1_0000_0000_0000_0000) == x
    ensures -0x8000_0000 <= x < 0x8000_0000
  {
  }

  /** Truncation to 32 bits, read in two's complement. */
  lemma ToI32Meaning(v: nat)
    ensures -0x8000_0000 <= ToI32(v) < 0x8000_0000 && (ToI32(v) - v) % 0x1_0000_0000 == 0
  {
    assert v == v / 0x1_0000_0000 * 0x1_0000_0000 + v % 0x1_0000_0000;
    Multiple(-(v / 0x1_0000_0000), ToI32(v) - v);
    Multiple(-(v / 0x1_0000_0000) - 1, ToI32(v) - v);
  }

  lemma Multiple(q: int, d: int)
    ensures d == q * 0x1_0000_0000 ==> d % 0x1_0000_0000 == 0
  {
  }

  // ---- Tags and lengths ----

  lemma TagLength(num: FieldNumber, wireType: nat)
    requires wireType < 8
    ensures |EncodeTag(num, wireType)| == VarintSize(num * 8) == VarintSize(num * 8 + wireType)
  {
    EncodedVarintLength(num * 8 + wireType);
    if num * 8 >= 128 {
      assert (num * 8 + wireType) / 128 == (num * 8) / 128;
    }
  }

  lemma TagRoundTrip(num: FieldNumber, wireType: nat, rest: Bytes)
    requires wireType < 8
    ensures ReadTag(EncodeTag(num, wireType) + rest) == Ok(num * 8 + wireType, |EncodeTag(num, wireType)|)
  {
    Pow128Bounds();
    TagLength(num, wireType);
    VarintRoundTrip(num * 8 + wireType, rest, 5);
  }

  lemma EncodedLenLength(data: Bytes)
    ensures |EncodeLen(data)| == LenSize(|data|)
  {
    EncodedVarintLength(ToU32(|data|));
  }

  lemma LenRoundTrip(data: Bytes, rest: Bytes)
    requires |data| < TWO31
    ensures ReadLen(EncodeLen(data) + rest) == Ok(data, |EncodeLen(data)|)
  {
    Pow128Bounds();
    var k := |data|;
    EncodedVarintLength(k);
    VarintRoundTrip(k, data + rest, 5);
    assert EncodeLen(data) + rest == EncodeVarint(k) + (data + rest);
  }

  lemma LenIsLongest(s: Bytes)
    requires ReadLen(s).Ok?
    ensures LenSize(|ReadLen(s).value|) <= ReadLen(s).size
  {
    ReadVarintIsLongest(s, 5);
  }

  // ---- Records ----

  lemma {:induction false} EncodedFieldLength(f: Field)
    ensures |EncodeField(f)| == FieldSize(f)
    decreases f
  {
    match f
    case Varint(num, v) => TagLength(num, 0); EncodedVarintLength(v);
    case Fixed64(num, _) => TagLength(num, 1);
    case Len(num, data) => TagLength(num, 2); EncodedLenLength(data);
    case Group(num, fs) => TagLength(num, 3); TagLength(num, 4); EncodedFieldsLength(fs);
    case Fixed32(num, _) => TagLength(num, 5);
  }

  /** The size pass counts exactly the bytes the writer emits for a list of records. */
  lemma {:induction false} EncodedFieldsLength(fs: seq<Field>)
    ensures |EncodeFields(fs)| == FieldsSize(fs)
    decreases fs
  {
    if fs != [] {
      EncodedFieldLength(fs[0]);
      EncodedFieldsLength(fs[1..]);
    }
  }

  /** Reading a written record, whatever follows it, gives the record back and stops right after it. */
  lemma {:induction false} FieldRoundTrip(f: Field, depth: nat, rest: Bytes)
    requires ValidField(f, depth)
    ensures ReadField(depth, EncodeField(f) + rest) == Record(f, |EncodeField(f)|)
    decreases f, 2
  {
    hide ReadTag, ReadPayload, EncodePayload, EncodeTag;
    var tag, body := EncodeTag(f.num, WireType(f)), EncodePayload(f);
    TagRoundTrip(f.num, WireType(f), body + rest);
    PayloadRoundTrip(f, depth, rest);
    assert EncodeField(f) + rest == tag + (body + rest);
    assert (tag + (body + rest))[|tag|..] == body + rest;
  }

  lemma {:induction false} PayloadRoundTrip(f: Field, depth: nat, rest: Bytes)
    requires ValidField(f, depth)
    ensures ReadPayload(depth, f.num * 8 + WireType(f), EncodePayload(f) + rest) == Ok(f, |EncodePayload(f)|)
    decreases f, 1
  {
    hide ReadVarint64, ReadLen, ReadGroup, EncodeVarint, EncodeFields;
    match f
    case Varint(num, v) =>
      EncodedVarintLength(v);
      Varint64RoundTrip(v, rest);
    case Fixed64(num, raw) =>
      RawPrefix(raw, rest);
    case Len(num, data) =>
      LenRoundTrip(data, rest);
    case Group(num, fs) =>
      GroupRoundTrip(num, fs, depth - 1, rest);
      assert EncodePayload(f) + rest == EncodeFields(fs) + (EncodeTag(num, 4) + rest);
    case Fixed32(num, raw) =>
      RawPrefix(raw, rest);
  }

  lemma RawPrefix(raw: Bytes, rest: Bytes)
    ensures (raw + rest)[..|raw|] == raw
  {
  }

  lemma {:induction false} GroupRoundTrip(num: FieldNumber, fs: seq<Field>, depth: nat, rest: Bytes)
    requires ValidFields(fs, depth)
    ensures ReadGroup(depth, num, EncodeFields(fs) + (EncodeTag(num, 4) + rest))
         == Ok(fs, |EncodeFields(fs)| + |EncodeTag(num, 4)|)
    decreases fs, 0
  {
    hide ReadField, EncodeField, EncodeTag;
    var tail := EncodeTag(num, 4) + rest;
    if fs == [] {
      GroupEnd(depth, num, rest);
      assert EncodeFields(fs) + tail == tail;
    } else {
      var after := EncodeFields(fs[1..]) + tail;
      assert EncodeFields(fs) + tail == EncodeField(fs[0]) + after;
      FieldRoundTrip(fs[0], depth, after);
      assert (EncodeField(fs[0]) + after)[|EncodeField(fs[0])|..] == after;
      GroupRoundTrip(num, fs[1..], depth, rest);
      assert [fs[0]] + fs[1..] == fs;
    }
  }

  /** The end-group tag stops the reader. */
  lemma GroupEnd(depth: nat, num: FieldNumber, rest: Bytes)
    ensures ReadField(depth, EncodeTag(num, 4) + rest) == Stop(num * 8 + 4, |EncodeTag(num, 4)|)
  {
    hide ReadTag, EncodeTag, ReadPayload;
    TagRoundTrip(num, 4, rest);
  }

  /** Every record the reader accepts is valid, and writing it again takes no more bytes than were read. */
  lemma {:induction false} ReadFieldIsCanonical(depth: nat, s: Bytes)
    requires ReadField(depth, s).Record?
    ensures ValidField(ReadField(depth, s).field, depth)
    ensures FieldSize(ReadField(depth, s).field) <= ReadField(depth, s).size
    decreases |s|, 0
  {
    var t := ReadTag(s);
    ReadVarintIsLongest(s, 5);
    var raw := ReadVarint(s, 5).value;
    VarintSizeMonotone(ToU32(raw), raw);
    TagLength(t.value / 8, t.value % 8);
    ReadPayloadIsCanonical(depth, t.value, s[t.size..]);
  }

  lemma {:induction false} ReadPayloadIsCanonical(depth: nat, tag: U32, s: Bytes)
    requires ReadPayload(depth, tag, s).Ok?
    ensures ReadPayload(depth, tag, s).value.num == tag / 8
    ensures ValidField(ReadPayload(depth, tag, s).value, depth)
    ensures FieldSize(ReadPayload(depth, tag, s).value) <= VarintSize(tag / 8 * 8) + ReadPayload(depth, tag, s).size
    decreases |s|, 2
  {
    match tag % 8
    case 0 => Varint64IsLongest(s);
    case 2 => LenIsLongest(s);
    case 3 => ReadGroupIsCanonical(depth - 1, tag / 8, s);
    case _ =>
  }

  /** The tag decides the number and the wire type of the record. */
  lemma PayloadKind(depth: nat, tag: U32, s: Bytes)
    requires ReadPayload(depth, tag, s).Ok?
    ensures ReadPayload(depth, tag, s).value.num == tag / 8
    ensures WireType(ReadPayload(depth, tag, s).value) == tag % 8
  {
  }

  lemma {:induction false} ReadGroupIsCanonical(depth: nat, num: FieldNumber, s: Bytes)
    requires ReadGroup(depth, num, s).Ok?
    ensures ValidFields(ReadGroup(depth, num, s).value, depth)
    ensures FieldsSize(ReadGroup(depth, num, s).value) + VarintSize(num * 8) <= ReadGroup(depth, num, s).size
    decreases |s|, 1
  {
    match ReadField(depth, s)
    case Malformed =>
    case Stop(tag, n) =>
      ReadVarintIsLongest(s, 5);
      var raw := ReadVarint(s, 5).value;
      VarintSizeMonotone(ToU32(raw), raw);
      TagLength(num, 4);
    case Record(f, n) =>
      ReadFieldIsCanonical(depth, s);
      ReadGroupIsCanonical(depth, num, s[n..]);
      var fs := ReadGroup(depth, num, s[n..]).value;
      assert ([f] + fs)[1..] == fs;
  }

  // ---- Reading does not look past the record ----

  lemma {:induction false} ReadVarintPrefix(s: Bytes, t: Bytes, limit: nat)
    requires ReadVarint(s, limit).Ok?
    ensures ReadVarint(s + t, limit) == ReadVarint(s, limit)
    decreases limit
  {
    if s[0] >= 128 {
      ReadVarintPrefix(s[1..], t, limit - 1);
      assert (s + t)[1..] == s[1..] + t;
    }
  }

  lemma ReadLenPrefix(s: Bytes, t: Bytes)
    requires ReadLen(s).Ok?
    ensures ReadLen(s + t) == ReadLen(s)
  {
    ReadVarintPrefix(s, t, 5);
    var n, k := ReadSize(s).size, ReadSize(s).value;
    assert (s + t)[n..n + k] == s[n..n + k];
  }

  lemma {:induction false} ReadFieldPrefix(depth: nat, s: Bytes, t: Bytes)
    requires !ReadField(depth, s).Malformed?
    ensures ReadField(depth, s + t) == ReadField(depth, s)
    decreases |s|, 0
  {
    ReadVarintPrefix(s, t, 5);
    var tag := ReadTag(s);
    if ReadField(depth, s).Record? {
      assert (s + t)[tag.size..] == s[tag.size..] + t;
      ReadPayloadPrefix(depth, tag.value, s[tag.size..], t);
    }
  }

  lemma {:induction false} ReadPayloadPrefix(depth: nat, tag: U32, s: Bytes, t: Bytes)
    requires ReadPayload(depth, tag, s).Ok?
    ensures ReadPayload(depth, tag, s + t) == ReadPayload(depth, tag, s)
    decreases |s|, 2
  {
    match tag % 8
    case 0 => ReadVarintPrefix(s, t, 10);
    case 1 => assert (s + t)[..8] == s[..8];
    case 2 => ReadLenPrefix(s, t);
    case 3 => ReadGroupPrefix(depth - 1, tag / 8, s, t);
    case _ => assert (s + t)[..4] == s[..4];
  }

  lemma {:induction false} ReadGroupPrefix(depth: nat, num: FieldNumber, s: Bytes, t: Bytes)
    requires ReadGroup(depth, num, s).Ok?
    ensures ReadGroup(depth, num, s + t) == ReadGroup(depth, num, s)
    decreases |s|, 1
  {
    ReadFieldPrefix(depth, s, t);
    var r := ReadField(depth, s);
    if r.Record? {
      assert (s + t)[r.size..] == s[r.size..] + t;
      ReadGroupPrefix(depth, num, s[r.size..], t);
    }
  }

  // ---- Nothing after a record is looked at ----

  lemma {:induction false} ReadVarintLocal(s: Bytes, limit: nat)
    requires ReadVarint(s, limit).Ok?
    ensures ReadVarint(s[..ReadVarint(s, limit).size], limit) == ReadVarint(s, limit)
    decreases limit
  {
    if s[0] >= 128 {
      ReadVarintLocal(s[1..], limit - 1);
      var n := ReadVarint(s[1..], limit - 1).size;
      assert s[..n + 1][1..] == s[1..][..n];
    }
  }

  lemma ReadLenLocal(s: Bytes)
    requires ReadLen(s).Ok?
    ensures ReadLen(s[..ReadLen(s).size]) == ReadLen(s)
  {
    hide ReadVarint;
    var n, k := ReadVarint(s, 5).size, ReadVarint(s, 5).value;
    ReadVarintLocal(s, 5);
    assert s[..n + k] == s[..n] + s[n..n + k];
    ReadVarintPrefix(s[..n], s[n..n + k], 5);
    assert s[..n + k][n..n + k] == s[n..n + k];
  }

  /** A record, or the tag that stops the reader, is read from its own bytes alone. */
  lemma {:induction false} ReadFieldLocal(depth: nat, s: Bytes)
    requires !ReadField(depth, s).Malformed?
    ensures ReadField(depth, s[..ReadField(depth, s).size]) == ReadField(depth, s)
    decreases |s|, 0
  {
    hide ReadPayload;
    var r, n, tag := ReadField(depth, s), ReadTag(s).size, ReadTag(s).value;
    ReadVarintLocal(s, 5);
    assert s[..r.size] == s[..n] + s[n..r.size];
    ReadVarintPrefix(s[..n], s[n..r.size], 5);
    if r.Record? {
      ReadPayloadLocal(depth, tag, s[n..]);
      assert s[..r.size][n..] == s[n..][..r.size - n];
    }
  }

  lemma {:induction false} ReadPayloadLocal(depth: nat, tag: U32, s: Bytes)
    requires ReadPayload(depth, tag, s).Ok?
    ensures ReadPayload(depth, tag, s[..ReadPayload(depth, tag, s).size]) == ReadPayload(depth, tag, s)
    decreases |s|, 2
  {
    hide ReadVarint, ReadLen, ReadGroup;
    match tag % 8
    case 0 => ReadVarintLocal(s, 10);
    case 1 => assert s[..8][..8] == s[..8];
    case 2 => ReadLenLocal(s);
    case 3 => ReadGroupLocal(depth - 1, tag / 8, s);
    case 5 => assert s[..4][..4] == s[..4];
    case _ =>
  }

  lemma {:induction false} ReadGroupLocal(depth: nat, num: FieldNumber, s: Bytes)
    requires ReadGroup(depth, num, s).Ok?
    ensures ReadGroup(depth, num, s[..ReadGroup(depth, num, s).size]) == ReadGroup(depth, num, s)
    decreases |s|, 1
  {
    hide ReadField;
    var r, n := ReadField(depth, s), ReadGroup(depth, num, s).size;
    ReadFieldLocal(depth, s);
    assert s[..n] == s[..r.size] + s[r.size..n];
    ReadFieldPrefix(depth, s[..r.size], s[r.size..n]);
    if r.Record? {
      ReadGroupLocal(depth, num, s[r.size..]);
      assert s[..n][r.size..] == s[r.size..][..n - r.size];
    }
  }

  // ---- Lists of records ----

  /** The five kinds of records, in bytes: the tag is eight times the field number plus the wire type. */
  lemma RecordsOnTheWire(num: FieldNumber, v: U64, raw8: Raw8, data: Bytes, fields: seq<Field>, raw4: Raw4)
    ensures EncodeField(Varint(num, v)) == EncodeVarint(num * 8) + EncodeVarint(v)
    ensures EncodeField(Fixed64(num, raw8)) == EncodeVarint(num * 8 + 1) + raw8
    ensures |data| < 0x8000_0000 ==>
              EncodeField(Len(num, data)) == EncodeVarint(num * 8 + 2) + (EncodeVarint(|data|) + data)
    ensures EncodeField(Group(num, fields)) ==
            EncodeVarint(num * 8 + 3) + (EncodeFields(fields) + EncodeVarint(num * 8 + 4))
    ensures EncodeField(Fixed32(num, raw4)) == EncodeVarint(num * 8 + 5) + raw4
  {
    hide EncodeVarint;
  }

  /** Field number 0 and wire types 6 and 7 are errors. */
  lemma BadTags(depth: nat, tag: U32, rest: Bytes)
    requires (0 < tag < 8 && tag != 4) || tag % 8 == 6 || tag % 8 == 7
    ensures ReadField(depth, EncodeVarint(tag) + rest) == Malformed
  {
    hide ReadVarint, EncodeVarint;
    Pow128Bounds();
    VarintRoundTrip(tag, rest, 5);
    EncodedVarintLength(tag);
    assert (EncodeVarint(tag) + rest)[|EncodeVarint(tag)|..] == rest;
  }

  /** A group ends with the end-group tag of its own number only. */
  lemma {:induction false} OtherGroupEnd(depth: nat, num: FieldNumber, other: FieldNumber, fs: seq<Field>, rest: Bytes)
    requires ValidFields(fs, depth) && other != num
    ensures ReadGroup(depth, num, EncodeFields(fs) + (EncodeTag(other, 4) + rest)) == Fail
    decreases |fs|
  {
    hide ReadField, EncodeField, EncodeTag;
    var tail := EncodeTag(other, 4) + rest;
    if fs == [] {
      GroupEnd(depth, other, rest);
      assert EncodeFields(fs) + tail == tail;
    } else {
      var after := EncodeFields(fs[1..]) + tail;
      assert EncodeFields(fs) + tail == EncodeField(fs[0]) + after;
      FieldRoundTrip(fs[0], depth, after);
      assert (EncodeField(fs[0]) + after)[|EncodeField(fs[0])|..] == after;
      OtherGroupEnd(depth, num, other, fs[1..], rest);
    }
  }

  /** `k` groups inside each other. */
  function Nested(k: nat): Field {
    Group(1, if k == 0 then [] else [Nested(k - 1)])
  }

  /** The reader enters exactly `depth` levels of groups. */
  lemma {:induction false} DepthLimit(depth: nat, k: nat, rest: Bytes)
    ensures ReadField(depth, EncodeField(Nested(k)) + rest) ==
            if k < depth then Record(Nested(k), |EncodeField(Nested(k))|) else Malformed
    decreases k
  {
    hide ReadTag, EncodeTag;
    if k < depth {
      NestedIsValid(depth, k);
      FieldRoundTrip(Nested(k), depth, rest);
    } else {
      var f := Nested(k);
      var tag, body := EncodeTag(1, 3), EncodePayload(f);
      TagRoundTrip(1, 3, body + rest);
      assert EncodeField(f) + rest == tag + (body + rest);
      assert (tag + (body + rest))[|tag|..] == body + rest;
      if depth > 0 {
        var tail := EncodeTag(1, 4) + rest;
        DepthLimit(depth - 1, k - 1, tail);
        EncodeOneField(Nested(k - 1));
        assert body + rest == EncodeField(Nested(k - 1)) + tail;
        assert ReadGroup(depth - 1, 1, body + rest).Fail?;
      }
      assert ReadPayload(depth, 11, body + rest).Fail?;
    }
  }

  lemma {:induction false} NestedIsValid(depth: nat, k: nat)
    requires k < depth
    ensures ValidField(Nested(k), depth)
    decreases k
  {
    if k > 0 { NestedIsValid(depth - 1, k - 1); }
  }

  lemma {:induction false} EncodeFieldsConcat(a: seq<Field>, b: seq<Field>)
    ensures EncodeFields(a + b) == EncodeFields(a) + EncodeFields(b)
  {
    if a == [] {
      assert a + b == b;
    } else {
      assert (a + b)[1..] == a[1..] + b;
      EncodeFieldsConcat(a[1..], b);
    }
  }

  lemma EncodeOneField(f: Field)
    ensures EncodeFields([f]) == EncodeField(f)
  {
    assert [f][1..] == [];
    assert EncodeFields([f]) == EncodeField(f) + [];
  }

  lemma {:induction false} FieldsSizeConcat(a: seq<Field>, b: seq<Field>)
    ensures FieldsSize(a + b) == FieldsSize(a) + FieldsSize(b)
  {
    EncodedFieldsLength(a + b);
    EncodedFieldsLength(a);
    EncodedFieldsLength(b);
    EncodeFieldsConcat(a, b);
  }

  lemma FieldsSizeLast(fs: seq<Field>, f: Field)
    ensures FieldsSize(fs + [f]) == FieldsSize(fs) + FieldSize(f)
  {
    FieldsSizeConcat(fs, [f]);
    assert [f][1..] == [];
  }

  // ---- Packed repeated fields ----

  lemma {:induction false} EncodedPackedLength(vs: seq<U64>)
    ensures |EncodePacked(vs)| == PackedSize(vs)
  {
    if vs != [] {
      EncodedVarintLength(vs[0]);
      EncodedPackedLength(vs[1..]);
    }
  }

  lemma {:induction false} PackedRoundTrip(vs: seq<U64>)
    ensures ReadPacked(EncodePacked(vs)) == Ok(vs, PackedSize(vs))
  {
    if vs != [] {
      var rest := EncodePacked(vs[1..]);
      EncodedVarintLength(vs[0]);
      Varint64RoundTrip(vs[0], rest);
      assert EncodePacked(vs)[VarintSize(vs[0])..] == rest;
      PackedRoundTrip(vs[1..]);
      assert [vs[0]] + vs[1..] == vs;
    }
  }

  lemma {:induction false} ReadPackedIsCanonical(s: Bytes)
    requires ReadPacked(s).Ok?
    ensures PackedSize(ReadPacked(s).value) <= |s|
    decreases |s|
  {
    if s != [] {
      var h := ReadVarint64(s);
      Varint64IsLongest(s);
      ReadPackedIsCanonical(s[h.size..]);
      var vs := ReadPacked(s[h.size..]).value;
      assert ([h.value] + vs)[1..] == vs;
    }
  }

  lemma {:induction false} PackedSizeConcat(a: seq<U64>, b: seq<U64>)
    ensures PackedSize(a + b) == PackedSize(a) + PackedSize(b)
  {
    if a == [] {
      assert a + b == b;
    } else {
      assert (a + b)[1..] == a[1..] + b;
      PackedSizeConcat(a[1..], b);
    }
  }

  lemma PackedSizeLast(vs: seq<U64>, v: U64)
    ensures PackedSize(vs + [v]) == PackedSize(vs) + VarintSize(v)
  {
    PackedSizeConcat(vs, [v]);
    assert [v][1..] == [];
  }
}
