/**
 One OPEN/SEEK/CLOSE exchange in three styles: the synchronous client, the client of nested callbacks, and the
 coroutine client over `RemoteTransaction`.
 */
module KvSeek {
  import opened Options
  import opened WireFormat
  import opened KvClient
  import opened RemoteTransaction
  import C = CursorCodec
  import P = PairCodec

  /**
   The replies obtained before the first failure, when `written` are the results of the writes and `answers` those
   of the reads; what is missing counts as failed.
   */
  function Good(written: seq<bool>, answers: seq<Option<P.Pair>>): (g: seq<P.Pair>) {
    if written != [] && written[0] && answers != [] && answers[0].Some?
    then [answers[0].value] + Good(written[1..], answers[1..])
    else []
  }

  /** The messages of the exchange, given the replies obtained. */
  function SeekMessages(table: Bytes, key: Bytes, replies: seq<P.Pair>): seq<C.Cursor> {
    if |replies| == 0 then [Request(OpenCursor(table))]
    else if |replies| == 1 then [Request(OpenCursor(table)), Request(Seek(replies[0].cursorId, key))]
    else [Request(OpenCursor(table)), Request(Seek(replies[0].cursorId, key)),
          Request(CloseCursor(replies[0].cursorId))]
  }

  // ---- The synchronous client ----

  class ReaderWriter {
    var written: seq<bool>
    var answers: seq<Option<P.Pair>>
    var sent: seq<C.Cursor>

    constructor (written: seq<bool>, answers: seq<Option<P.Pair>>)
      ensures this.written == written && this.answers == answers && sent == []
    {
      this.written, this.answers, sent := written, answers, [];
    }

    method Write(message: C.Cursor) returns (ok: bool)
      modifies this
      ensures sent == old(sent) + [message] && answers == old(answers)
      ensures ok == (old(written) != [] && old(written)[0])
      ensures written == if old(written) == [] then [] else old(written)[1..]
    {
      sent := sent + [message];
      if written == [] { return false; }
      ok, written := written[0], written[1..];
    }

    method Read() returns (reply: Option<P.Pair>)
      modifies this
      ensures sent == old(sent) && written == old(written)
      ensures reply == if old(answers) == [] then None else old(answers)[0]
      ensures answers == if old(answers) == [] then [] else old(answers)[1..]
    {
      if answers == [] { return None; }
      reply, answers := answers[0], answers[1..];
    }
  }

  method SeekSynchronously(stream: ReaderWriter, table: Bytes, key: Bytes) returns (code: int, found: Option<Result>)
    requires stream.sent == []
    modifies stream
    ensures var g := Good(old(stream.written), old(stream.answers));
            && stream.sent == SeekMessages(table, key, g)
            && code == (if |g| >= 3 then 0 else -1)
            && found == (if |g| >= 2 then Some(KeyValue(g[1].k, g[1].v)) else None)
  {
    found := None;
    ghost var g := Good(stream.written, stream.answers);
    var message := C.EMPTY.(op := OPEN);
    message := message.(bucketName := table);
    var ok := stream.Write(message);
    if !ok { return -1, found; }
    var openPair := stream.Read();
    if openPair.None? { return -1, found; }
    var cursorId := openPair.value.cursorId;
    assert g == [openPair.value] + Good(stream.written, stream.answers);

    message := C.EMPTY.(op := SEEK);
    message := message.(cursor := cursorId);
    message := message.(k := key);
    ok := stream.Write(message);
    if !ok { return -1, found; }
    var seekPair := stream.Read();
    if seekPair.None? { return -1, found; }
    found := Some(KeyValue(seekPair.value.k, seekPair.value.v));
    assert g == [openPair.value, seekPair.value] + Good(stream.written, stream.answers);

    message := C.EMPTY.(op := CLOSE);
    message := message.(cursor := cursorId);
    ok := stream.Write(message);
    if !ok { return -1, found; }
    var closePair := stream.Read();
    if closePair.None? { return -1, found; }
    assert g == [openPair.value, seekPair.value, closePair.value] + Good(stream.written, stream.answers);
    return 0, found;
  }

  // ---- The nested callbacks ----

  /** The callbacks that pass through the slots, with what each has captured. */
  datatype Callback =
    | OpenWritten
    | OpenRead
    | SeekWritten(cursorId: U32)
    | SeekRead(cursorId: U32)
    | CloseWritten(cursorId: U32)
    | CloseRead

  /** After the second reply there is nothing more to write. */
  lemma AllWritten(table: Bytes, key: Bytes, g: seq<P.Pair>)
    ensures forall rest :: |g| >= 2 ==> SeekMessages(table, key, g + rest) == SeekMessages(table, key, g)
  {
  }

  lemma GoodStep(written: seq<bool>, answers: seq<Option<P.Pair>>, i: nat)
    requires i <= |written| && i <= |answers|
    ensures Good(written[i..], answers[i..]) ==
            if i < |written| && written[i] && i < |answers| && answers[i].Some?
            then [answers[i].value] + Good(written[i + 1..], answers[i + 1..]) else []
  {
    if i < |written| && i < |answers| {
      assert written[i..][1..] == written[i + 1..] && answers[i..][1..] == answers[i + 1..];
    }
  }

  class GrpcKvCallbackReactor {
    const table: Bytes
    const key: Bytes
    var writeCompleted: Option<Callback>
    var readCompleted: Option<Callback>
    var pair: P.Pair
    var writing: bool
    var reading: bool
    var sent: seq<C.Cursor>
    var found: Option<Result>
    var stopped: bool

    /** `main` up to `context.run()`. */
    constructor (table: Bytes, key: Bytes)
      ensures this.table == table && this.key == key && AtWrite(0, []) && found == None && !stopped
    {
      this.table, this.key := table, key;
      pair, readCompleted, found, stopped, reading := P.EMPTY, None, None, false, false;
      sent := [C.EMPTY.(op := OPEN).(bucketName := table)];
      writeCompleted, writing := Some(OpenWritten), true;
    }

    /** Request `n` of the three is being written, after the replies `g`. */
    ghost predicate AtWrite(n: nat, g: seq<P.Pair>)
      reads this
    {
      && n == |g| < 3 && writing && !reading
      && sent == SeekMessages(table, key, g)
      && writeCompleted == Some(if n == 0 then OpenWritten
                                else if n == 1 then SeekWritten(g[0].cursorId)
                                else CloseWritten(g[0].cursorId))
    }

    ghost predicate AtRead(n: nat, g: seq<P.Pair>)
      reads this
    {
      && n == |g| < 3 && !writing && reading
      && sent == SeekMessages(table, key, g)
      && readCompleted == Some(if n == 0 then OpenRead else if n == 1 then SeekRead(g[0].cursorId) else CloseRead)
    }

    method WriteStart(message: C.Cursor, callback: Callback)
      modifies this
      ensures sent == old(sent) + [message] && writeCompleted == Some(callback) && writing
      ensures readCompleted == old(readCompleted) && pair == old(pair) && reading == old(reading)
      ensures found == old(found) && stopped == old(stopped)
    {
      writeCompleted := Some(callback);
      sent, writing := sent + [message], true;
    }

    method ReadStart(callback: Callback)
      modifies this
      ensures readCompleted == Some(callback) && reading
      ensures sent == old(sent) && writeCompleted == old(writeCompleted) && pair == old(pair) && writing == old(writing)
      ensures found == old(found) && stopped == old(stopped)
    {
      readCompleted, reading := Some(callback), true;
    }

    method OnWriteDone(ok: bool, ghost g: seq<P.Pair>)
      requires AtWrite(|g|, g)
      modifies this
      ensures ok ==> AtRead(|g|, g)
      ensures !ok ==> !writing && !reading && sent == old(sent)
      ensures found == old(found) && stopped == old(stopped)
    {
      writing := false;
      if !ok { return; }
      match writeCompleted.value {
        case OpenWritten => ReadStart(OpenRead);
        case SeekWritten(id) => ReadStart(SeekRead(id));
        case CloseWritten(_) => ReadStart(CloseRead);
      }
    }

    method OnReadDone(reply: Option<P.Pair>, ghost g: seq<P.Pair>)
      requires AtRead(|g|, g)
      modifies this
      ensures reply.None? ==>
                !writing && !reading && sent == old(sent) && found == old(found) && stopped == old(stopped)
      ensures reply.Some? && |g| < 2 ==> AtWrite(|g| + 1, g + [reply.value]) && stopped == old(stopped)
      ensures reply.Some? && |g| == 2 ==> !writing && !reading && sent == old(sent) && stopped
      ensures reply.Some? ==> found == if |g| == 1 then Some(KeyValue(reply.value.k, reply.value.v)) else old(found)
    {
      reading := false;
      if reply.None? { return; }
      pair := reply.value;
      match readCompleted.value {
        case OpenRead =>
          WriteStart(C.EMPTY.(op := SEEK).(cursor := pair.cursorId).(k := key), SeekWritten(pair.cursorId));
        case SeekRead(id) =>
          found := Some(KeyValue(pair.k, pair.v));
          WriteStart(C.EMPTY.(op := CLOSE).(cursor := id), CloseWritten(id));
        case CloseRead =>
          stopped := true;
      }
    }

    /** The events that arrive while `context.run()` is running. */
    method Run(written: seq<bool>, answers: seq<Option<P.Pair>>)
      requires AtWrite(0, []) && found == None && !stopped
      modifies this
      ensures var g := Good(written, answers);
              && sent == SeekMessages(table, key, g)
              && stopped == (|g| >= 3)
              && found == (if |g| >= 2 then Some(KeyValue(g[1].k, g[1].v)) else None)
    {
      hide Good, SeekMessages;
      var i := 0;
      ghost var g: seq<P.Pair> := [];
      assert written[0..] == written && answers[0..] == answers;
      assert [] + Good(written, answers) == Good(written, answers);
      while writing
        invariant i == |g| && i <= |written| && i <= |answers|
        invariant Good(written, answers) == g + Good(written[i..], answers[i..])
        invariant writing ==> AtWrite(i, g) && !stopped
        invariant !writing ==> Stopped(g) && (|g| >= 3 || Good(written[i..], answers[i..]) == [])
        invariant found == if |g| >= 2 then Some(KeyValue(g[1].k, g[1].v)) else None
        decreases writing, 3 - i
      {
        GoodStep(written, answers, i);
        var ok := i < |written| && written[i];
        OnWriteDone(ok, g);
        if ok {
          var reply := if i < |answers| then answers[i] else None;
          OnReadDone(reply, g);
          if reply.Some? {
            AllWritten(table, key, g);
            assert g + ([reply.value] + Good(written[i + 1..], answers[i + 1..])) ==
                   g + [reply.value] + Good(written[i + 1..], answers[i + 1..]);
            g, i := g + [reply.value], i + 1;
          }
        }
      }
      AllWritten(table, key, g);
      assert g + [] == g;
    }

    ghost predicate Stopped(g: seq<P.Pair>)
      reads this
    {
      !writing && !reading && sent == SeekMessages(table, key, g) && stopped == (|g| >= 3)
    }
  }

  // ---- The coroutines ----

  /** The client that has the table's cursor cached with this id, and nothing else. */
  function OneCached(table: Bytes, id: U32): Client {
    Client(map[0 := id], map[table := 0], map[0 := table], 1)
  }

  lemma FirstCursor(table: Bytes, replies: seq<P.Pair>)
    ensures var end := Finish(Trace(Begin(NO_CURSORS, GetCursor(table)), [], replies));
            && end.issued == [OpenCursor(table)] && end.replies == Rest(replies)
            && end.progress.Returned? == (replies != [])
            && (replies != [] ==> end.progress == Returned(OneCached(table, replies[0].cursorId), CursorIs(0)))
  {
    var t := Trace(Begin(NO_CURSORS, GetCursor(table)), [], replies);
    hide Finish;
    Ended(t);
    if replies != [] {
      Resumed(t);
      var p := Resume(t.progress.client, t.progress.pc, replies[0]);
      Ended(Trace(p, [OpenCursor(table)], replies[1..]));
      assert p.client.ids == map[0 := replies[0].cursorId];
      assert [] + [OpenCursor(table)] == [OpenCursor(table)];
    }
  }

  lemma CloseOneCached(table: Bytes, id: U32, issued: seq<Op>, replies: seq<P.Pair>)
    ensures Finish(Trace(Begin(OneCached(table, id), CloseTx([table])), issued, replies)).issued ==
            if id == 0 then issued + [Close]
            else if replies == [] then issued + [CloseCursor(id)]
            else issued + [CloseCursor(id), Close]
  {
    var c := OneCached(table, id);
    var d := c.(ids := c.ids[0 := 0]);
    var t := Trace(CloseLoop(c, [table]), issued, replies);
    assert [table][1..] == [];
    CloseEnd(if id == 0 then c else d);
    if id == 0 { LastAwait(c, issued, replies); } else { LastAwait(d, issued + [CloseCursor(id)], Rest(replies)); }
    hide Finish;
    Ended(t);
    if id != 0 && replies != [] {
      assert Resume(c, t.progress.pc, replies[0]) == CloseLoop(d, []);
      Resumed(t);
      assert issued + [CloseCursor(id)] + [Close] == issued + [CloseCursor(id), Close];
    }
  }

  lemma LastAwait(c: Client, issued: seq<Op>, replies: seq<P.Pair>)
    ensures Finish(Trace(CloseLoop(c, []), issued, replies)).issued == issued + [Close]
  {
    var t := Trace(CloseLoop(c, []), issued, replies);
    CloseEnd(c);
    Ended(t);
    if replies != [] {
      Resumed(t);
      Ended(Trace(Resume(t.progress.client, t.progress.pc, replies[0]), issued + [Close], replies[1..]));
    }
  }

  /** The next call of a coroutine, unless an earlier one threw. */
  function Then(t: Trace, cmd: Command): Trace {
    if t.progress.Returned? then Finish(Trace(Begin(t.progress.client, cmd), t.issued, t.replies)) else t
  }

  /** The cursor object that `cursor(table)` returned. */
  function CursorOf(t: Trace): nat {
    if t.progress.Returned? && t.progress.result.CursorIs? then t.progress.result.ref else 0
  }

  function AfterCursor(table: Bytes, replies: seq<P.Pair>): Trace {
    Then(Trace(Returned(NO_CURSORS, NoValue), [], replies), GetCursor(table))
  }

  function AfterSeek(table: Bytes, key: Bytes, replies: seq<P.Pair>): Trace {
    Then(AfterCursor(table, replies), SeekOn(CursorOf(AfterCursor(table, replies)), key))
  }

  /** `kv_seek` run on the transaction's own semantics: its three calls, one after the other. */
  function SeekTrace(table: Bytes, key: Bytes, replies: seq<P.Pair>): Trace {
    Then(AfterSeek(table, key, replies), CloseTx([table]))
  }

  /** What that comes to, written out. */
  function SeekOps(table: Bytes, key: Bytes, replies: seq<P.Pair>): seq<Op> {
    if |replies| == 0 then [OpenCursor(table)]
    else
      var id := replies[0].cursorId;
      if |replies| == 1 then [OpenCursor(table), Seek(id, key)]
      else if id == 0 then [OpenCursor(table), Seek(0, key), Close]
      else if |replies| == 2 then [OpenCursor(table), Seek(id, key), CloseCursor(id)]
      else [OpenCursor(table), Seek(id, key), CloseCursor(id), Close]
  }

  /** The first two calls. */
  lemma SeekIssues(table: Bytes, key: Bytes, replies: seq<P.Pair>)
    ensures var t := AfterSeek(table, key, replies);
            && t.progress.Returned? == (|replies| >= 2)
            && (|replies| < 2 ==> t.issued == SeekOps(table, key, replies))
            && (|replies| >= 2 ==>
                  && t.progress == Returned(OneCached(table, replies[0].cursorId), KeyValue(replies[1].k, replies[1].v))
                  && t.issued == [OpenCursor(table), Seek(replies[0].cursorId, key)] && t.replies == replies[2..])
  {
    hide Finish, Begin;
    FirstCursor(table, replies);
    if replies != [] {
      var c := OneCached(table, replies[0].cursorId);
      SeekRuns(c, 0, key, [OpenCursor(table)], replies[1..]);
      assert IdOf(c, 0) == replies[0].cursorId;
      assert [OpenCursor(table)] + [Seek(replies[0].cursorId, key)] ==
             [OpenCursor(table), Seek(replies[0].cursorId, key)];
      assert |replies| >= 2 ==> replies[1..][1..] == replies[2..];
    }
  }

  lemma TraceIssues(table: Bytes, key: Bytes, replies: seq<P.Pair>)
    ensures SeekTrace(table, key, replies).issued == SeekOps(table, key, replies)
  {
    hide Finish, Begin, AfterSeek;
    SeekIssues(table, key, replies);
    if |replies| >= 2 {
      var id := replies[0].cursorId;
      CloseOneCached(table, id, [OpenCursor(table), Seek(id, key)], replies[2..]);
    }
  }

  /** `kv_seek`: a cursor for the table, a seek on it, and the end of the transaction. */
  method SeekWithCoroutines(kv: GrpcAsioAwaitable, table: Bytes, key: Bytes) returns (found: Option<Result>)
    requires kv.Valid() && kv.issued == []
    modifies kv
    ensures kv.Valid() && kv.issued == SeekTrace(table, key, old(kv.replies)).issued
    ensures found == OutcomeOf(AfterSeek(table, key, old(kv.replies)).progress)
  {
    hide Finish, Begin, Messages, Request, OneCached, ClientOf, Enumerates, SeekTrace, AfterSeek;
    found := None;
    ghost var replies := kv.replies;
    TraceIssues(table, key, replies);
    SeekIssues(table, key, replies);
    FirstCursor(table, replies);
    var transaction := new RemoteTransaction(kv);
    var cursor := transaction.Cursor(table);
    if cursor.None? { return; }
    OneObject(transaction.Objects(), transaction.slots, table, replies[0].cursorId);
    found := cursor.value.Seek(key);
    assert |replies| == 1 ==> kv.issued == SeekOps(table, key, replies);
    if found.None? { return; }
    CloseOneCached(table, cursor.value.cursorId, kv.issued, kv.replies);
    var _ := transaction.Close([table]);
    assert kv.issued == SeekOps(table, key, replies);
  }

  lemma OneObject(objs: seq<Obj>, slots: map<Bytes, nat>, table: Bytes, id: U32)
    requires ClientOf(objs, slots) == OneCached(table, id)
    ensures |objs| == 1 && objs[0].id == id && Enumerates([table], OneCached(table, id).cached)
  {
    assert 0 in OneCached(table, id).ids;
  }

  lemma ListedMessages(o0: Op, o1: Op, o2: Op)
    requires !o0.Close? && !o1.Close? && !o2.Close?
    ensures Messages([o0]) == [Request(o0)]
    ensures Messages([o0, o1]) == [Request(o0), Request(o1)]
    ensures Messages([o0, o1, o2]) == [Request(o0), Request(o1), Request(o2)]
  {
    hide Request;
    assert [o0][..0] == [] && [o0, o1][..1] == [o0] && [o0, o1, o2][..2] == [o0, o1];
  }

  /** The messages of the three calls: those of the other clients, but no CLOSE for a cursor with id 0. */
  lemma OpsMessages(table: Bytes, key: Bytes, replies: seq<P.Pair>)
    ensures Messages(SeekOps(table, key, replies)) ==
            if |replies| >= 2 && replies[0].cursorId == 0 then SeekMessages(table, key, replies)[..2]
            else SeekMessages(table, key, replies)
  {
    hide Request, Messages;
    var o0 := OpenCursor(table);
    var o1 := if |replies| > 0 then Seek(replies[0].cursorId, key) else o0;
    var o2 := if |replies| > 0 then CloseCursor(replies[0].cursorId) else o0;
    ListedMessages(o0, o1, o2);
    if |replies| >= 2 {
      var front := if replies[0].cursorId == 0 then [o0, o1] else [o0, o1, o2];
      assert front + [Close] == if replies[0].cursorId == 0 then [o0, o1, Close] else [o0, o1, o2, Close];
      MessagesLast(front, Close);
    }
  }

  /**
   `kv_seek`, run on the semantics of the transaction, writes the messages of the other two clients, field for
   field, if and only if it does not get as far as closing a cursor with id 0; it then writes all but the CLOSE.
   It half-closes after everything was answered, as its last operation.
   */
  lemma SameExchange(table: Bytes, key: Bytes, replies: seq<P.Pair>)
    ensures var ops := SeekTrace(table, key, replies).issued;
            && (Messages(ops) == SeekMessages(table, key, replies) <==> |replies| < 2 || replies[0].cursorId != 0)
            && (|replies| >= 2 && replies[0].cursorId == 0 ==> Messages(ops) == SeekMessages(table, key, replies)[..2])
            && (Close in ops <==> |replies| >= |Messages(ops)|)
            && (Close in ops ==> ops[|ops| - 1] == Close)
  {
    hide Messages, SeekTrace, Request;
    TraceIssues(table, key, replies);
    OpsMessages(table, key, replies);
  }
}
