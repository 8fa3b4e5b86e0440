/**
 The requests on the wire, with the numbers of the protocol written out: the codes of the operations and the
 tags of the fields.
 */
module KvWire {
  import opened Options
  import opened WireFormat
  import opened WireTheory
  import opened Decoding
  import opened Utf8
  import opened KvClient
  import opened KvReactor
  import opened KvSession
  import opened KvMachine
  import opened RemoteTransaction
  import opened KvSeek
  import C = CursorCodec
  import P = PairCodec

  /** `message` is the request of operation `op`, in all six fields. */
  predicate Spells(op: Op, message: C.Cursor) {
    match op
    case OpenCursor(table) => message == C.Cursor(30, table, 0, [], [], [])
    case Seek(id, key) => message == C.Cursor(2, [], id, key, [], [])
    case Next(id) => message == C.Cursor(8, [], id, [], [], [])
    case CloseCursor(id) => message == C.Cursor(31, [], id, [], [], [])
    case Close => false
  }

  lemma RequestSpelled(op: Op)
    requires !op.Close?
    ensures Spells(op, Request(op))
  {
  }

  // ---- What was written ----

  /** The operations that write a message. */
  function Writers(ops: seq<Op>): seq<Op> {
    if ops == [] then []
    else if ops[|ops| - 1].Close? then Writers(ops[..|ops| - 1])
    else Writers(ops[..|ops| - 1]) + [ops[|ops| - 1]]
  }

  /** Every transaction object has written exactly the messages of the operations it issued. */
  lemma {:induction false} MessagesSpelled(ops: seq<Op>)
    ensures |Messages(ops)| == |Writers(ops)|
    ensures forall i | 0 <= i < |Messages(ops)| :: Spells(Writers(ops)[i], Messages(ops)[i])
    decreases |ops|
  {
    hide Spells, Request;
    if ops != [] {
      MessagesSpelled(ops[..|ops| - 1]);
      if !ops[|ops| - 1].Close? { RequestSpelled(ops[|ops| - 1]); }
    }
  }

  /** The messages of a run in the order they were written: those the server has answered, then those it has not. */
  function Written(st: State): seq<C.Cursor> {
    seq(|st.served|, i requires 0 <= i < |st.served| => st.served[i].req) + st.inbox
  }

  lemma WrittenIsRequest(st: State, i: nat)
    requires Inv(st) && i < |Written(st)|
    ensures i < |st.ops| && !st.ops[i].Close? && Written(st)[i] == Request(st.ops[i])
  {
    hide Legal, Completed, CallSoFar, CacheJustified, Balanced, Agreement, Protocol, Request;
    var n := |st.served|;
    if i >= n {
      var j := i - n;
      assert Written(st)[i] == st.inbox[j] && n + j == i;
    }
  }

  /** On every run, the i-th message written is that of operation i, in all six fields. */
  lemma RunSpelled(run: seq<Action>, st: State, i: nat)
    requires Execute(run) == Some(st) && i < |Written(st)|
    ensures i < |st.ops| && Spells(st.ops[i], Written(st)[i])
  {
    hide Execute, Inv, Request, Spells, Written;
    EveryRunInv(run);
    WrittenIsRequest(st, i);
    RequestSpelled(st.ops[i]);
  }

  // ---- In bytes ----

  function OptBytes(tag: Byte, data: Bytes): Bytes {
    if data == [] then [] else [tag] + EncodeVarint(|data|) + data
  }

  function OptNumber(tag: Byte, n: nat): Bytes {
    if n == 0 then [] else [tag] + EncodeVarint(n)
  }

  /** The bytes of a request: code, then table, or id and key. */
  function RequestBytes(op: Op): Bytes
    requires !op.Close?
  {
    match op
    case OpenCursor(table) => [8, 30] + OptBytes(18, table)
    case Seek(id, key) => [8, 2] + OptNumber(24, id) + OptBytes(34, key)
    case Next(id) => [8, 8] + OptNumber(24, id)
    case CloseCursor(id) => [8, 31] + OptNumber(24, id)
  }

  /** Tables and keys are shorter than two gigabytes. */
  predicate Fits(op: Op) {
    (op.OpenCursor? ==> |op.table| < 0x8000_0000) && (op.Seek? ==> |op.key| < 0x8000_0000)
  }

  lemma TagBytes()
    ensures EncodeTag(1, 0) == [8] && EncodeTag(2, 2) == [18] && EncodeTag(3, 0) == [24] && EncodeTag(4, 2) == [34]
  {
  }

  lemma SmallVarint(n: nat)
    requires n < 128
    ensures EncodeVarint(n) == [n]
  {
  }

  lemma OptionalNumber(num: FieldNumber, tag: Byte, n: U64)
    requires EncodeTag(num, 0) == [tag]
    ensures EncodeFields(OptVarint(num, n)) == OptNumber(tag, n)
  {
    hide EncodeVarint, EncodeTag;
    if n != 0 { EncodeOneField(Varint(num, n)); }
  }

  lemma OptionalBytes(num: FieldNumber, tag: Byte, data: Bytes)
    requires EncodeTag(num, 2) == [tag] && |data| < 0x8000_0000
    ensures EncodeFields(OptLen(num, data)) == OptBytes(tag, data)
  {
    hide EncodeVarint, EncodeTag;
    if data != [] {
      EncodeOneField(Len(num, data));
      assert [tag] + (EncodeVarint(|data|) + data) == [tag] + EncodeVarint(|data|) + data;
    }
  }

  /** A message with a small operation code and no value. */
  lemma SerializedFields(m: C.Cursor)
    requires 0 < m.op < 128 && m.v == [] && m.unknown == []
    requires |m.bucketName| < 0x8000_0000 && |m.k| < 0x8000_0000
    ensures C.Serialize(m) == [8, m.op] + OptBytes(18, m.bucketName) + OptNumber(24, m.cursor) + OptBytes(34, m.k)
  {
    hide EncodeVarint, EncodeTag, EncodeFields, OptBytes, OptNumber;
    TagBytes();
    SmallVarint(m.op);
    var r1, r2, r3, r4 := OptVarint(1, m.op), OptLen(2, m.bucketName), OptVarint(3, m.cursor), OptLen(4, m.k);
    assert C.KnownRecords(m) + m.unknown == r1 + r2 + r3 + r4;
    EncodeFieldsConcat(r1 + r2 + r3, r4);
    EncodeFieldsConcat(r1 + r2, r3);
    EncodeFieldsConcat(r1, r2);
    OptionalNumber(1, 8, m.op);
    CodeBytes(m.op);
    OptionalBytes(2, 18, m.bucketName);
    OptionalNumber(3, 24, m.cursor);
    OptionalBytes(4, 34, m.k);
  }

  lemma CodeBytes(code: nat)
    requires 0 < code < 128
    ensures OptNumber(8, code) == [8, code]
  {
  }

  /** A written request is its bytes. */
  lemma SerializedRequest(op: Op, message: C.Cursor)
    requires Spells(op, message) && Fits(op)
    ensures C.Serialize(message) == RequestBytes(op)
  {
    hide C.Serialize, EncodeVarint;
    SerializedFields(message);
    var code, id, key := [8, message.op], OptNumber(24, message.cursor), OptBytes(34, message.k);
    assert code + [] == code && code + id + [] == code + id;
    assert code + OptBytes(18, message.bucketName) + [] + [] == code + OptBytes(18, message.bucketName);
  }

  lemma NoText()
    ensures IsUtf8([])
  {
  }

  /**
   A request on the wire: its bytes are those of its operation, and they parse back to its code, table, id and
   key; an OPEN only if its table is UTF-8.
   */
  lemma RequestOnTheWire(op: Op, message: C.Cursor, depth: nat)
    requires Spells(op, message) && Fits(op)
    ensures !op.Close? && C.Serialize(message) == RequestBytes(op)
    ensures C.Parse(depth, RequestBytes(op)) == Done(message) <==> (op.OpenCursor? ==> EncodesText(op.table))
  {
    hide RequestBytes, IsUtf8, EncodesText, C.Serialize, C.Parse;
    SerializedRequest(op, message);
    C.RoundTrip(depth, message);
    Utf8Meaning(message.bucketName);
    NoText();
  }

  /** What any transaction object has written, message by message. */
  lemma MessagesOnTheWire(ops: seq<Op>, i: nat, depth: nat)
    requires i < |Messages(ops)| && i < |Writers(ops)| && Fits(Writers(ops)[i])
    ensures var op, message := Writers(ops)[i], Messages(ops)[i];
            && Spells(op, message) && !op.Close? && C.Serialize(message) == RequestBytes(op)
            && (C.Parse(depth, RequestBytes(op)) == Done(message) <==> (op.OpenCursor? ==> EncodesText(op.table)))
  {
    hide RequestBytes, IsUtf8, EncodesText, C.Serialize, C.Parse, Messages, Writers;
    MessagesSpelled(ops);
    RequestOnTheWire(Writers(ops)[i], Messages(ops)[i], depth);
  }

  /** What any run of the machine has written, message by message. */
  lemma RunOnTheWire(run: seq<Action>, st: State, i: nat, depth: nat)
    requires Execute(run) == Some(st) && i < |Written(st)| && i < |st.ops| && Fits(st.ops[i])
    ensures var op, message := st.ops[i], Written(st)[i];
            && Spells(op, message) && !op.Close? && C.Serialize(message) == RequestBytes(op)
            && (C.Parse(depth, RequestBytes(op)) == Done(message) <==> (op.OpenCursor? ==> EncodesText(op.table)))
  {
    hide Execute, RequestBytes, IsUtf8, EncodesText, C.Serialize, C.Parse, Written;
    RunSpelled(run, st, i);
    RequestOnTheWire(st.ops[i], Written(st)[i], depth);
  }

  /** What the synchronous and the callback client write, in all six fields. */
  lemma SeekMessagesSpelled(table: Bytes, key: Bytes, replies: seq<P.Pair>)
    ensures var id := if replies == [] then 0 else replies[0].cursorId;
            SeekMessages(table, key, replies) ==
              [C.Cursor(30, table, 0, [], [], []), C.Cursor(2, [], id, key, [], []), C.Cursor(31, [], id, [], [], [])]
              [..if |replies| < 2 then |replies| + 1 else 3]
  {
  }
}
