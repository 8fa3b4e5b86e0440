/**
 The Protocol Buffers wire format: base-128 varints, tags, length-delimited records and groups.

 These are the primitives the generated message code calls into its runtime for; they follow the
 Encoding specification of Protocol Buffers.  Reading is total: malformed input gives `Fail`.
 */
module WireFormat {
  const TWO31: int := 0x8000_0000
  const TWO32: int := 0x1_0000_0000
  const TWO64: int := 0x1_0000_0000_0000_0000

  type Byte = x: int | 0 <= x < 256
  type Bytes = seq<Byte>
  type U32 = x: int | 0 <= x < TWO32
  type U64 = x: int | 0 <= x < TWO64
  type I32 = x: int | -TWO31 <= x < TWO31
  type FieldNumber = n: int | 1 <= n < 0x2000_0000 witness 1
  type Raw4 = s: Bytes | |s| == 4 witness [0, 0, 0, 0]
  type Raw8 = s: Bytes | |s| == 8 witness [0, 0, 0, 0, 0, 0, 0, 0]

  /** One record: a field number with a payload of one of the five wire types. */
  datatype Field =
    | Varint(num: FieldNumber, value: U64)
    | Fixed64(num: FieldNumber, raw8: Raw8)
    | Len(num: FieldNumber, data: Bytes)
    | Group(num: FieldNumber, fields: seq<Field>)
    | Fixed32(num: FieldNumber, raw4: Raw4)

  /** Result of reading a value off the front of a buffer: the value and the bytes consumed. */
  datatype Scan<+T> = Fail | Ok(value: T, size: nat)

  /** Result of reading a record: tag 0 and end-group tags are not records, they stop the reader. */
  datatype FieldScan = Malformed | Stop(tag: U32, size: nat) | Record(field: Field, size: nat)

  // ---- Truncation to a machine word ----

  function ToU32(n: nat): (r: U32)
    ensures n < TWO32 ==> r == n
  {
    if n < 0x1_0000_0000 then n else n % 0x1_0000_0000
  }

  function ToU64(n: nat): (r: U64)
    ensures n < TWO64 ==> r == n
  {
    if n < 0x1_0000_0000_0000_0000 then n else n % 0x1_0000_0000_0000_0000
  }

  // ---- Base 128 varints ----

  function EncodeVarint(n: nat): (s: Bytes)
    decreases n
  {
    if n < 128 then [n] else [128 + n % 128] + EncodeVarint(n / 128)
  }

  function VarintSize(n: nat): nat
    decreases n
  {
    if n < 128 then 1 else 1 + VarintSize(n / 128)
  }

  /** The varint at the front of `s`, if it ends within `limit` bytes. */
  function ReadVarint(s: Bytes, limit: nat): (r: Scan<nat>)
    ensures r.Ok? ==> 0 < r.size <= |s| && r.size <= limit
    decreases |s|
  {
    if limit == 0 || s == [] then Fail
    else if s[0] < 128 then Ok(s[0], 1)
    else match ReadVarint(s[1..], limit - 1)
      case Fail => Fail
      case Ok(v, n) => Ok(s[0] - 128 + 128 * v, n + 1)
  }

  /** A 64-bit varint takes at most ten bytes; bits above the 64th are dropped. */
  function ReadVarint64(s: Bytes): (r: Scan<U64>)
    ensures r.Ok? ==> 0 < r.size <= |s|
  {
    match ReadVarint(s, 10)
    case Fail => Fail
    case Ok(v, n) => Ok(ToU64(v), n)
  }

  function ReadVarint32(s: Bytes): (r: Scan<U32>)
    ensures r.Ok? ==> 0 < r.size <= |s|
  {
    match ReadVarint(s, 10)
    case Fail => Fail
    case Ok(v, n) => Ok(ToU32(v), n)
  }

  // ---- Two's complement ----

  /** `static_cast` of a 64-bit value to a 32-bit signed one. */
  function ToI32(v: nat): I32 {
    var low := ToU32(v);
    if low < TWO31 then low else low - TWO32
  }

  /** A negative 32-bit value is sent as the 64-bit value it extends to. */
  function SignExtend(x: I32): U64 {
    if x < 0 then x + TWO64 else x
  }

  /** The size of a 32-bit signed value or enum: a negative one takes ten bytes. */
  function Int32Size(x: I32): nat {
    if x < 0 then 10 else VarintSize(x)
  }

  // ---- Tags and length-delimited payloads ----

  function EncodeTag(num: FieldNumber, wireType: nat): Bytes
    requires wireType < 8
  {
    EncodeVarint(num * 8 + wireType)
  }

  function ReadTag(s: Bytes): (r: Scan<U32>)
    ensures r.Ok? ==> 0 < r.size <= |s|
  {
    match ReadVarint(s, 5)
    case Fail => Fail
    case Ok(v, n) => Ok(ToU32(v), n)
  }

  /** A length is a non-negative 32-bit signed value. */
  function ReadSize(s: Bytes): (r: Scan<nat>)
    ensures r.Ok? ==> 0 < r.size <= |s| && r.value < TWO31
  {
    match ReadVarint(s, 5)
    case Fail => Fail
    case Ok(v, n) => if v < TWO31 then Ok(v, n) else Fail
  }

  /** A length is written as a 32-bit value. */
  function EncodeLen(data: Bytes): Bytes {
    EncodeVarint(ToU32(|data|)) + data
  }

  function LenSize(n: nat): nat {
    n + VarintSize(ToU32(n))
  }

  function ReadLen(s: Bytes): (r: Scan<Bytes>)
    ensures r.Ok? ==> 0 < r.size <= |s| && |r.value| < TWO31
  {
    match ReadSize(s)
    case Fail => Fail
    case Ok(k, n) => if n + k <= |s| then Ok(s[n..n + k], n + k) else Fail
  }

  // ---- Records ----

  function WireType(f: Field): nat {
    match f
    case Varint(_, _) => 0
    case Fixed64(_, _) => 1
    case Len(_, _) => 2
    case Group(_, _) => 3
    case Fixed32(_, _) => 5
  }

  function EncodePayload(f: Field): Bytes
    decreases f, 0
  {
    match f
    case Varint(_, v) => EncodeVarint(v)
    case Fixed64(_, raw) => raw
    case Len(_, data) => EncodeLen(data)
    case Group(num, fs) => EncodeFields(fs) + EncodeTag(num, 4)
    case Fixed32(_, raw) => raw
  }

  function EncodeField(f: Field): Bytes
    decreases f, 1
  {
    EncodeTag(f.num, WireType(f)) + EncodePayload(f)
  }

  function EncodeFields(fs: seq<Field>): Bytes
    decreases fs, 0
  {
    if fs == [] then [] else EncodeField(fs[0]) + EncodeFields(fs[1..])
  }

  /** The size pass over a record list, as the runtime computes it for unknown fields. */
  function FieldSize(f: Field): nat
    decreases f
  {
    VarintSize(f.num * 8) +
    match f
    case Varint(_, v) => VarintSize(v)
    case Fixed64(_, _) => 8
    case Len(_, data) => LenSize(|data|)
    case Group(num, fs) => FieldsSize(fs) + VarintSize(num * 8)
    case Fixed32(_, _) => 4
  }

  function FieldsSize(fs: seq<Field>): nat
    decreases fs
  {
    if fs == [] then 0 else FieldSize(fs[0]) + FieldsSize(fs[1..])
  }

  /**
   The record at the front of `s`.  `depth` is how many more levels of groups and submessages the
   reader may enter.
   */
  function ReadField(depth: nat, s: Bytes): (r: FieldScan)
    ensures r.Record? || r.Stop? ==> 0 < r.size <= |s|
    decreases |s|, 0
  {
    match ReadTag(s)
    case Fail => Malformed
    case Ok(tag, n) =>
      if tag == 0 || tag % 8 == 4 then Stop(tag, n)
      else match ReadPayload(depth, tag, s[n..])
        case Fail => Malformed
        case Ok(f, k) => Record(f, n + k)
  }

  /** The payload after `tag`; field number 0 and wire types 6 and 7 are errors. */
  function ReadPayload(depth: nat, tag: U32, s: Bytes): (r: Scan<Field>)
    ensures r.Ok? ==> r.size <= |s|
    decreases |s|, 2
  {
    if tag / 8 == 0 then Fail else
    var num: FieldNumber := tag / 8;
    match tag % 8
    case 0 =>
      (match ReadVarint64(s)
       case Fail => Fail
       case Ok(v, n) => Ok(Varint(num, v), n))
    case 1 => if |s| < 8 then Fail else Ok(Fixed64(num, s[..8]), 8)
    case 2 =>
      (match ReadLen(s)
       case Fail => Fail
       case Ok(data, n) => Ok(Len(num, data), n))
    case 3 =>
      if depth == 0 then Fail
      else (match ReadGroup(depth - 1, num, s)
            case Fail => Fail
            case Ok(fs, n) => Ok(Group(num, fs), n))
    case 5 => if |s| < 4 then Fail else Ok(Fixed32(num, s[..4]), 4)
    case _ => Fail
  }

  /** The records up to the end-group tag that matches `num`, which is consumed too. */
  function ReadGroup(depth: nat, num: FieldNumber, s: Bytes): (r: Scan<seq<Field>>)
    ensures r.Ok? ==> 0 < r.size <= |s|
    decreases |s|, 1
  {
    match ReadField(depth, s)
    case Malformed => Fail
    case Stop(tag, n) => if tag == num * 8 + 4 then Ok([], n) else Fail
    case Record(f, n) =>
      match ReadGroup(depth, num, s[n..])
      case Fail => Fail
      case Ok(fs, k) => Ok([f] + fs, n + k)
  }

  /** What survives the wire: lengths below 2^31 and groups nested at most `depth` deep. */
  predicate ValidField(f: Field, depth: nat)
    decreases f
  {
    match f
    case Len(_, data) => |data| < TWO31
    case Group(_, fs) => depth > 0 && forall g | g in fs :: ValidField(g, depth - 1)
    case _ => true
  }

  predicate ValidFields(fs: seq<Field>, depth: nat) {
    forall f | f in fs :: ValidField(f, depth)
  }

  // ---- Packed repeated fields ----

  function EncodePacked(vs: seq<U64>): Bytes {
    if vs == [] then [] else EncodeVarint(vs[0]) + EncodePacked(vs[1..])
  }

  function PackedSize(vs: seq<U64>): nat {
    if vs == [] then 0 else VarintSize(vs[0]) + PackedSize(vs[1..])
  }

  /** The varints that fill `s` exactly. */
  function ReadPacked(s: Bytes): Scan<seq<U64>>
    decreases |s|
  {
    if s == [] then Ok([], 0)
    else match ReadVarint64(s)
      case Fail => Fail
      case Ok(v, n) =>
        match ReadPacked(s[n..])
        case Fail => Fail
        case Ok(vs, k) => Ok([v] + vs, n + k)
  }
}
