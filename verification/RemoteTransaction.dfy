/**
 `RemoteCursor` and `RemoteTransaction` as their coroutines are written: straight-line code over mutable objects,
 in which `co_await` waits for the reply and goes on.  Each is proved to do what the suspend-and-resume view of
 module `KvClient` says, for every sequence of replies, also when the stream fails part-way.
 */
module RemoteTransaction {
  import opened Options
  import opened WireFormat
  import opened KvClient
  import C = CursorCodec
  import P = PairCodec

  function Rest(replies: seq<P.Pair>): seq<P.Pair> {
    if replies == [] then [] else replies[1..]
  }

  function First(replies: seq<P.Pair>): Option<P.Pair> {
    if replies == [] then None else Some(replies[0])
  }

  /** The messages behind a sequence of operations. */
  function Messages(ops: seq<Op>): seq<C.Cursor> {
    if ops == [] then []
    else Messages(ops[..|ops| - 1]) + if ops[|ops| - 1].Close? then [] else [Request(ops[|ops| - 1])]
  }

  lemma MessagesLast(ops: seq<Op>, op: Op)
    ensures Messages(ops + [op]) == Messages(ops) + if op.Close? then [] else [Request(op)]
  {
    assert (ops + [op])[..|ops|] == ops;
  }

  /**
   The asynchronous operations.  `replies` is what the stream will deliver; with none left, waiting throws.
   `sent` is what was written to the stream, `issued` the operations behind it.
   */
  class GrpcAsioAwaitable {
    var replies: seq<P.Pair>
    var sent: seq<C.Cursor>
    var halfClosed: bool
    ghost var issued: seq<Op>

    ghost predicate Valid()
      reads this
    {
      sent == Messages(issued) && (halfClosed <==> Close in issued)
    }

    constructor (replies: seq<P.Pair>)
      ensures Valid() && this.replies == replies && issued == []
    {
      this.replies, sent, halfClosed, issued := replies, [], false, [];
    }

    /** Write `message` and wait for its reply. */
    method WriteAndRead(message: C.Cursor, ghost op: Op) returns (reply: Option<P.Pair>)
      requires Valid() && !op.Close? && message == Request(op)
      modifies this
      ensures Valid() && issued == old(issued) + [op] && sent == old(sent) + [message]
      ensures reply == First(old(replies)) && replies == Rest(old(replies))
    {
      sent := sent + [message];
      MessagesLast(issued, op);
      issued := issued + [op];
      if replies == [] { return None; }
      reply, replies := Some(replies[0]), replies[1..];
    }

    method AsyncOpenCursor(table: Bytes) returns (reply: Option<P.Pair>)
      requires Valid()
      modifies this
      ensures Valid() && issued == old(issued) + [OpenCursor(table)]
      ensures sent == old(sent) + [C.Cursor(30, table, 0, [], [], [])]
      ensures reply == First(old(replies)) && replies == Rest(old(replies))
    {
      var message := C.EMPTY.(op := OPEN);
      message := message.(bucketName := table);
      reply := WriteAndRead(message, OpenCursor(table));
    }

    method AsyncSeek(id: U32, key: Bytes) returns (reply: Option<P.Pair>)
      requires Valid()
      modifies this
      ensures Valid() && issued == old(issued) + [Seek(id, key)]
      ensures sent == old(sent) + [C.Cursor(2, [], id, key, [], [])]
      ensures reply == First(old(replies)) && replies == Rest(old(replies))
    {
      var message := C.EMPTY.(op := SEEK);
      message := message.(cursor := id);
      message := message.(k := key);
      reply := WriteAndRead(message, Seek(id, key));
    }

    method AsyncNext(id: U32) returns (reply: Option<P.Pair>)
      requires Valid()
      modifies this
      ensures Valid() && issued == old(issued) + [Next(id)]
      ensures sent == old(sent) + [C.Cursor(8, [], id, [], [], [])]
      ensures reply == First(old(replies)) && replies == Rest(old(replies))
    {
      var message := C.EMPTY.(op := NEXT);
      message := message.(cursor := id);
      reply := WriteAndRead(message, Next(id));
    }

    method AsyncCloseCursor(id: U32) returns (reply: Option<P.Pair>)
      requires Valid()
      modifies this
      ensures Valid() && issued == old(issued) + [CloseCursor(id)]
      ensures sent == old(sent) + [C.Cursor(31, [], id, [], [], [])]
      ensures reply == First(old(replies)) && replies == Rest(old(replies))
    {
      var message := C.EMPTY.(op := CLOSE);
      message := message.(cursor := id);
      reply := WriteAndRead(message, CloseCursor(id));
    }

    /** Half-close; the end of the stream counts as the reply. */
    method AsyncClose() returns (reply: Option<P.Pair>)
      requires Valid()
      modifies this
      ensures Valid() && issued == old(issued) + [Close] && sent == old(sent)
      ensures reply == First(old(replies)) && replies == Rest(old(replies))
    {
      halfClosed := true;
      MessagesLast(issued, Close);
      issued := issued + [Close];
      if replies == [] { return None; }
      reply, replies := Some(replies[0]), replies[1..];
    }
  }

  // ---- Awaiting, in both views ----

  function Drop(replies: seq<P.Pair>, n: nat): seq<P.Pair> {
    if n <= |replies| then replies[n..] else []
  }

  /** What a coroutine leaves behind: where it stopped, the operations issued, the replies not used. */
  datatype Trace = Trace(progress: Progress, issued: seq<Op>, replies: seq<P.Pair>)

  /** The suspend-and-resume view, run from `t` until it returns or the replies are used up. */
  function Finish(t: Trace): Trace {
    var ran := Run(t.progress, t.replies);
    Trace(ran.progress, t.issued + ran.ops, Drop(t.replies, |ran.ops|))
  }

  lemma Resumed(t: Trace)
    requires t.progress.Suspended? && t.replies != []
    ensures Finish(t) ==
            Finish(Trace(Resume(t.progress.client, t.progress.pc, t.replies[0]),
                         t.issued + [t.progress.op], t.replies[1..]))
  {
    var p := Resume(t.progress.client, t.progress.pc, t.replies[0]);
    hide Resume;
    assert t.issued + ([t.progress.op] + Run(p, t.replies[1..]).ops) ==
           t.issued + [t.progress.op] + Run(p, t.replies[1..]).ops;
  }

  /** A return ends it; so does an await without a reply, which throws. */
  lemma Ended(t: Trace)
    ensures t.progress.Returned? ==> Finish(t) == t
    ensures t.progress.Suspended? && t.replies == [] ==> Finish(t) == Trace(t.progress, t.issued + [t.progress.op], [])
  {
    assert t.issued + [] == t.issued;
  }

  /** A call that is over: `None` says an exception went through it. */
  type Outcome = Option<Result>

  class RemoteCursor {
    const kv: GrpcAsioAwaitable
    var cursorId: U32
    ghost var table: Option<Bytes>

    constructor (kv: GrpcAsioAwaitable)
      ensures this.kv == kv && cursorId == 0 && table == None
    {
      this.kv, cursorId, table := kv, 0, None;
    }

    method OpenCursor(table: Bytes) returns (ok: bool)
      requires kv.Valid()
      modifies this, kv
      ensures kv.Valid()
      ensures old(cursorId) != 0 ==> ok && cursorId == old(cursorId) && this.table == old(this.table)
                                     && kv.issued == old(kv.issued) && kv.replies == old(kv.replies)
      ensures old(cursorId) == 0 ==> kv.issued == old(kv.issued) + [Op.OpenCursor(table)]
                                     && kv.replies == Rest(old(kv.replies)) && ok == (old(kv.replies) != [])
      ensures old(cursorId) == 0 && ok ==> cursorId == old(kv.replies)[0].cursorId && this.table == Some(table)
      ensures !ok ==> cursorId == 0 && this.table == old(this.table)
    {
      if cursorId == 0 {
        var reply := kv.AsyncOpenCursor(table);
        if reply.None? { return false; }
        cursorId := reply.value.cursorId;
        this.table := Some(table);
      }
      return true;
    }

    method Seek(key: Bytes) returns (r: Outcome)
      requires kv.Valid()
      modifies kv
      ensures kv.Valid() && kv.issued == old(kv.issued) + [Op.Seek(cursorId, key)]
      ensures kv.replies == Rest(old(kv.replies))
      ensures r == if old(kv.replies) == [] then None else Some(KeyValue(old(kv.replies)[0].k, old(kv.replies)[0].v))
    {
      var reply := kv.AsyncSeek(cursorId, key);
      if reply.None? { return None; }
      return Some(KeyValue(reply.value.k, reply.value.v));
    }

    method Next() returns (r: Outcome)
      requires kv.Valid()
      modifies kv
      ensures kv.Valid() && kv.issued == old(kv.issued) + [Op.Next(cursorId)]
      ensures kv.replies == Rest(old(kv.replies))
      ensures r == if old(kv.replies) == [] then None else Some(KeyValue(old(kv.replies)[0].k, old(kv.replies)[0].v))
    {
      var reply := kv.AsyncNext(cursorId);
      if reply.None? { return None; }
      return Some(KeyValue(reply.value.k, reply.value.v));
    }

    method CloseCursor() returns (ok: bool)
      requires kv.Valid()
      modifies this, kv
      ensures kv.Valid() && table == old(table)
      ensures old(cursorId) == 0 ==> ok && kv.issued == old(kv.issued) && kv.replies == old(kv.replies)
      ensures old(cursorId) != 0 ==> kv.issued == old(kv.issued) + [Op.CloseCursor(old(cursorId))]
                                     && kv.replies == Rest(old(kv.replies)) && ok == (old(kv.replies) != [])
      ensures cursorId == if ok then 0 else old(cursorId)
    {
      if cursorId != 0 {
        var reply := kv.AsyncCloseCursor(cursorId);
        if reply.None? { return false; }
        cursorId := 0;
      }
      return true;
    }

    /** OPEN, SEEK and CLOSE in one call, on the cursor object that client `c` knows as `r`. */
    method SeekOnce(table: Bytes, key: Bytes, ghost c: Client, ghost r: nat) returns (outcome: Outcome)
      requires kv.Valid() && Knows(c, r, cursorId, this.table)
      modifies this, kv
      ensures kv.Valid()
      ensures var end := Finish(Trace(Begin(c, Command.SeekOnce(r, table, key)), old(kv.issued), old(kv.replies)));
              && kv.issued == end.issued && kv.replies == end.replies
              && outcome == OutcomeOf(end.progress)
              && end.progress.client == With(c, r, cursorId, this.table)
    {
      hide Finish, Messages;
      ghost var start := Begin(c, Command.SeekOnce(r, table, key));
      ghost var t := Trace(start, kv.issued, kv.replies);
      Ended(t);
      WithSame(c, r, cursorId, this.table);
      var ok := OpenCursor(table);
      if !ok { return None; }
      if old(cursorId) == 0 {
        Resumed(t);
        t := Trace(Resume(start.client, start.pc, t.replies[0]), kv.issued, kv.replies);
        Ended(t);
      }
      outcome := Seek(key);
      if outcome.None? { return; }
      Resumed(t);
      t := Trace(Resume(t.progress.client, t.progress.pc, t.replies[0]), kv.issued, kv.replies);
      Ended(t);
      ok := CloseCursor();
      if !ok { return None; }
      if t.progress.Suspended? {
        Resumed(t);
        Ended(Trace(Resume(t.progress.client, t.progress.pc, t.replies[0]), kv.issued, kv.replies));
        WithTwice(c, r, t.progress.client.ids[r], 0, this.table);
      }
    }
  }

  function OutcomeOf(p: Progress): Outcome {
    if p.Returned? then Some(p.result) else None
  }

  /** Client `c` has the cursor object `r` with this id and table. */
  predicate Knows(c: Client, r: nat, id: U32, table: Option<Bytes>) {
    && r in c.ids && c.ids[r] == id
    && (r in c.tables <==> table.Some?)
    && (table.Some? ==> c.tables[r] == table.value)
  }

  function With(c: Client, r: nat, id: U32, table: Option<Bytes>): Client {
    c.(ids := c.ids[r := id], tables := if table.Some? then c.tables[r := table.value] else c.tables)
  }

  lemma WithSame(c: Client, r: nat, id: U32, table: Option<Bytes>)
    requires Knows(c, r, id, table)
    ensures With(c, r, id, table) == c
  {
    assert c.ids[r := id] == c.ids;
    if table.Some? { assert c.tables[r := table.value] == c.tables; }
  }

  lemma WithTwice(c: Client, r: nat, id: U32, id': U32, table: Option<Bytes>)
    ensures With(With(c, r, id, table), r, id', table) == With(c, r, id', table)
  {
    assert c.ids[r := id][r := id'] == c.ids[r := id'];
    if table.Some? { assert c.tables[r := table.value][r := table.value] == c.tables[r := table.value]; }
  }

  // ---- The single calls on a cursor object, in the suspend-and-resume view ----

  /** `seek(key)`, as `RemoteCursor.Seek` does it. */
  lemma SeekRuns(c: Client, r: nat, key: Bytes, issued: seq<Op>, replies: seq<P.Pair>)
    ensures var end := Finish(Trace(Begin(c, SeekOn(r, key)), issued, replies));
            && end.issued == issued + [Seek(IdOf(c, r), key)] && end.replies == Rest(replies)
            && end.progress.client == c
            && OutcomeOf(end.progress) == if replies == [] then None else Some(KeyValue(replies[0].k, replies[0].v))
  {
    OneAwait(Trace(Begin(c, SeekOn(r, key)), issued, replies));
  }

  /** `next()`, as `RemoteCursor.Next` does it. */
  lemma NextRuns(c: Client, r: nat, issued: seq<Op>, replies: seq<P.Pair>)
    ensures var end := Finish(Trace(Begin(c, NextOn(r)), issued, replies));
            && end.issued == issued + [Op.Next(IdOf(c, r))] && end.replies == Rest(replies) && end.progress.client == c
            && OutcomeOf(end.progress) == if replies == [] then None else Some(KeyValue(replies[0].k, replies[0].v))
  {
    OneAwait(Trace(Begin(c, NextOn(r)), issued, replies));
  }

  /** `open_cursor(table)`, as `RemoteCursor.OpenCursor` does it. */
  lemma OpenRuns(c: Client, r: nat, table: Bytes, issued: seq<Op>, replies: seq<P.Pair>)
    ensures var end := Finish(Trace(Begin(c, OpenOn(r, table)), issued, replies));
            if IdOf(c, r) != 0 then end == Trace(Returned(c, NoValue), issued, replies)
            else
              && end.issued == issued + [OpenCursor(table)] && end.replies == Rest(replies)
              && end.progress.Returned? == (replies != [])
              && end.progress.client == if replies == [] then c else With(c, r, replies[0].cursorId, Some(table))
  {
    OneAwait(Trace(Begin(c, OpenOn(r, table)), issued, replies));
  }

  /** `close_cursor()`, as `RemoteCursor.CloseCursor` does it. */
  lemma CloseRuns(c: Client, r: nat, issued: seq<Op>, replies: seq<P.Pair>)
    ensures var end := Finish(Trace(Begin(c, CloseOn(r)), issued, replies));
            if IdOf(c, r) == 0 then end == Trace(Returned(c, NoValue), issued, replies)
            else
              && end.issued == issued + [CloseCursor(IdOf(c, r))] && end.replies == Rest(replies)
              && end.progress.Returned? == (replies != [])
              && end.progress.client == if replies == [] then c else c.(ids := c.ids[r := 0])
  {
    OneAwait(Trace(Begin(c, CloseOn(r)), issued, replies));
  }

  /** A call that returns at once, or after the first reply. */
  lemma OneAwait(t: Trace)
    ensures t.progress.Returned? ==> Finish(t) == t
    ensures t.progress.Suspended? && t.replies == [] ==> Finish(t) == Trace(t.progress, t.issued + [t.progress.op], [])
    ensures t.progress.Suspended? && t.replies != [] ==>
              var p := Resume(t.progress.client, t.progress.pc, t.replies[0]);
              p.Returned? ==> Finish(t) == Trace(p, t.issued + [t.progress.op], t.replies[1..])
  {
    hide Finish, Resume;
    Ended(t);
    if t.progress.Suspended? && t.replies != [] {
      Resumed(t);
      Ended(Trace(Resume(t.progress.client, t.progress.pc, t.replies[0]), t.issued + [t.progress.op], t.replies[1..]));
    }
  }

  /** A cursor object as the client sees it. */
  datatype Obj = Obj(id: U32, table: Option<Bytes>)

  /** The client with these cursor objects, numbered in the order they were made. */
  function ClientOf(objs: seq<Obj>, slots: map<Bytes, nat>): Client {
    Client(map i: nat | i < |objs| :: objs[i].id, slots,
           map i: nat | i < |objs| && objs[i].table.Some? :: objs[i].table.value, |objs|)
  }

  lemma OneMore(objs: seq<Obj>, slots: map<Bytes, nat>)
    ensures var c := ClientOf(objs, slots);
            ClientOf(objs + [Obj(0, None)], slots) == c.(ids := c.ids[c.next := 0], next := c.next + 1)
  {
    var c, c' := ClientOf(objs, slots), ClientOf(objs + [Obj(0, None)], slots);
    assert c'.ids == c.ids[c.next := 0];
    assert c'.tables == c.tables;
  }

  lemma OneChanged(objs: seq<Obj>, slots: map<Bytes, nat>, r: nat, obj: Obj)
    requires r < |objs| && (obj.table.None? ==> objs[r].table.None?)
    ensures ClientOf(objs[r := obj], slots) == With(ClientOf(objs, slots), r, obj.id, obj.table)
    ensures Knows(ClientOf(objs, slots), r, objs[r].id, objs[r].table)
  {
    var c, c' := ClientOf(objs, slots), ClientOf(objs[r := obj], slots);
    assert c'.ids == c.ids[r := obj.id];
    assert c'.tables == if obj.table.Some? then c.tables[r := obj.table.value] else c.tables;
  }

  /**
   `refs` are the cursor objects made so far, by whoever holds them; `cursors` is `cursors_`.
   */
  class RemoteTransaction {
    const kv: GrpcAsioAwaitable
    var cursors: map<Bytes, RemoteCursor>
    ghost var refs: seq<RemoteCursor>
    ghost var slots: map<Bytes, nat>

    ghost predicate Valid()
      reads this, kv
    {
      && kv.Valid()
      && (forall i, j | 0 <= i < j < |refs| :: refs[i] != refs[j])
      && (forall i | 0 <= i < |refs| :: refs[i].kv == kv)
      && cursors.Keys == slots.Keys
      && (forall t | t in slots :: slots[t] < |refs| && cursors[t] == refs[slots[t]])
    }

    ghost function Objects(): seq<Obj>
      reads this, refs
    {
      seq(|refs|, i requires 0 <= i < |refs| reads this, refs => Obj(refs[i].cursorId, refs[i].table))
    }

    ghost function View(): Client
      reads this, refs
    {
      ClientOf(Objects(), slots)
    }

    constructor (kv: GrpcAsioAwaitable)
      requires kv.Valid()
      ensures Valid() && this.kv == kv && View() == NO_CURSORS && refs == []
    {
      this.kv, cursors, refs, slots := kv, map[], [], map[];
    }

    /** `cursor()`: a cursor object of one's own. */
    method NewCursor() returns (cursor: RemoteCursor)
      requires Valid()
      modifies this
      ensures Valid() && fresh(cursor) && cursor.kv == kv && cursor.cursorId == 0 && cursor.table == None
      ensures refs == old(refs) + [cursor] && cursors == old(cursors) && slots == old(slots)
      ensures View() == Begin(old(View()), Command.NewCursor).client
    {
      hide ClientOf;
      cursor := new RemoteCursor(kv);
      refs := refs + [cursor];
      assert Objects() == old(Objects()) + [Obj(0, None)];
      NumberOf(old(Objects()), slots);
      OneMore(old(Objects()), slots);
    }

    /** `open_cursor` on the cursor object numbered `r`. */
    method Open(cursor: RemoteCursor, table: Bytes, ghost r: nat) returns (ok: bool)
      requires Valid() && r < |refs| && refs[r] == cursor && cursor.cursorId == 0
      modifies kv, cursor
      ensures Valid() && kv.issued == old(kv.issued) + [OpenCursor(table)] && kv.replies == Rest(old(kv.replies))
      ensures ok == (old(kv.replies) != [])
      ensures View() == if ok then With(old(View()), r, old(kv.replies)[0].cursorId, Some(table)) else old(View())
    {
      hide ClientOf, With;
      ok := cursor.OpenCursor(table);
      if ok {
        assert Objects() == old(Objects())[r := Obj(cursor.cursorId, Some(table))];
        OneChanged(old(Objects()), slots, r, Obj(cursor.cursorId, Some(table)));
      } else {
        assert Objects() == old(Objects());
      }
    }

    /** `cursor(table)`: the cached cursor object, or a new one that is opened and then cached. */
    method Cursor(table: Bytes) returns (cursor: Option<RemoteCursor>)
      requires Valid()
      modifies this, kv
      ensures Valid() && |refs| >= |old(refs)| && refs[..|old(refs)|] == old(refs)
      ensures forall i | |old(refs)| <= i < |refs| :: fresh(refs[i])
      ensures var end := Finish(Trace(Begin(old(View()), GetCursor(table)), old(kv.issued), old(kv.replies)));
              && kv.issued == end.issued && kv.replies == end.replies
              && View() == end.progress.client
              && (cursor.Some? <==> end.progress.Returned?)
              && (cursor.Some? ==> end.progress.result.CursorIs? && end.progress.result.ref < |refs|
                                   && cursor.value == refs[end.progress.result.ref])
    {
      hide Finish, Messages, ClientOf, Begin, Resume, With;
      ghost var c, r := View(), |refs|;
      ghost var t := Trace(Begin(c, GetCursor(table)), kv.issued, kv.replies);
      Ended(t);
      NumberOf(Objects(), slots);
      CursorSteps(c, table);
      if table in cursors {
        return Some(cursors[table]);
      }
      var made := NewCursor();
      var ok := Open(made, table, r);
      if !ok { return None; }
      Resumed(t);
      Ended(Trace(Resume(t.progress.client, t.progress.pc, t.replies[0]), kv.issued, kv.replies));
      Remember(table, made, r);
      return Some(made);
    }

    /** `cursors_[table] = cursor`. */
    method Remember(table: Bytes, cursor: RemoteCursor, ghost r: nat)
      requires Valid() && r < |refs| && refs[r] == cursor
      modifies this
      ensures Valid() && refs == old(refs)
      ensures View() == old(View()).(cached := old(slots)[table := r])
    {
      cursors, slots := cursors[table := cursor], slots[table := r];
      assert Objects() == old(Objects());
    }

    /** The end of `close()`: `cursors_.clear()`, then wait for the end of the stream. */
    method ClearAndHalfClose() returns (outcome: Outcome)
      requires Valid()
      modifies this, kv
      ensures Valid() && refs == old(refs)
      ensures var end := Finish(Trace(CloseLoop(old(View()), []), old(kv.issued), old(kv.replies)));
              && kv.issued == end.issued && kv.replies == end.replies
              && View() == end.progress.client
              && outcome == OutcomeOf(end.progress)
    {
      hide Finish, Messages, CloseLoop, Resume;
      ghost var t := Trace(CloseLoop(View(), []), kv.issued, kv.replies);
      CloseEnd(View());
      Ended(t);
      cursors, slots := map[], map[];
      assert Objects() == old(Objects());
      var reply := kv.AsyncClose();
      assert Objects() == old(Objects());
      if reply.None? { return None; }
      Resumed(t);
      Ended(Trace(Resume(t.progress.client, t.progress.pc, t.replies[0]), kv.issued, kv.replies));
      return Some(NoValue);
    }

    /** `close_cursor` on the cursor object numbered `r`. */
    method CloseCursor(cursor: RemoteCursor, ghost r: nat) returns (ok: bool)
      requires Valid() && r < |refs| && refs[r] == cursor
      modifies kv, cursor
      ensures Valid()
      ensures old(cursor.cursorId) == 0 ==> ok && Objects() == old(Objects())
                                            && kv.issued == old(kv.issued) && kv.replies == old(kv.replies)
      ensures old(cursor.cursorId) != 0 ==> kv.issued == old(kv.issued) + [Op.CloseCursor(old(cursor.cursorId))]
                                            && kv.replies == Rest(old(kv.replies)) && ok == (old(kv.replies) != [])
      ensures old(cursor.cursorId) != 0 ==>
                Objects() == if ok then old(Objects())[r := Obj(0, old(Objects())[r].table)] else old(Objects())
    {
      ok := cursor.CloseCursor();
      assert ok && old(cursor.cursorId) != 0 ==> Objects() == old(Objects())[r := Obj(0, old(Objects())[r].table)];
      assert !ok || old(cursor.cursorId) == 0 ==> Objects() == old(Objects());
    }

    /** `close()`: close every cached cursor, in the order of the map, forget them all, half-close. */
    method Close(order: seq<Bytes>) returns (outcome: Outcome)
      requires Valid() && Enumerates(order, View().cached)
      modifies this, kv, refs
      ensures Valid() && refs == old(refs)
      ensures var end := Finish(Trace(Begin(old(View()), CloseTx(order)), old(kv.issued), old(kv.replies)));
              && kv.issued == end.issued && kv.replies == end.replies
              && View() == end.progress.client
              && outcome == OutcomeOf(end.progress)
    {
      hide Finish, Messages, ClientOf, CloseLoop, Resume, Enumerates;
      ghost var goal := Finish(Trace(CloseLoop(View(), order), kv.issued, kv.replies));
      NumberOf(Objects(), slots);
      var i := 0;
      while i < |order|
        invariant 0 <= i <= |order|
        invariant Valid() && refs == old(refs) && slots == old(slots)
        invariant Enumerates(order, slots)
        invariant Finish(Trace(CloseLoop(View(), order[i..]), kv.issued, kv.replies)) == goal
      {
        EachCached(order, slots, i);
        ghost var r, c := slots[order[i]], View();
        ghost var t := Trace(CloseLoop(c, order[i..]), kv.issued, kv.replies);
        ghost var objs := Objects();
        OneChanged(objs, slots, r, Obj(0, objs[r].table));
        NumberOf(objs, slots);
        assert order[i..][1..] == order[i + 1..];
        CloseStep(c, order[i..], objs[r].table);
        Ended(t);
        var ok := CloseCursor(cursors[order[i]], r);
        if !ok { return None; }
        if objs[r].id != 0 { Resumed(t); }
        i := i + 1;
      }
      assert order[i..] == [];
      outcome := ClearAndHalfClose();
    }
  }

  /** `cursor(table)` between its suspension points. */
  lemma CursorSteps(c: Client, t: Bytes)
    ensures t in c.cached ==> Begin(c, GetCursor(t)) == Returned(c, CursorIs(c.cached[t]))
    ensures t !in c.cached ==>
              var d := Begin(c, Command.NewCursor).client;
              var pc := AwaitOpen(c.next, t, CacheIt);
              && Begin(c, GetCursor(t)) == Suspended(d, pc, OpenCursor(t))
              && forall reply :: Resume(d, pc, reply) ==
                   var e := With(d, c.next, reply.cursorId, Some(t));
                   Returned(e.(cached := c.cached[t := c.next]), CursorIs(c.next))
  {
  }

  lemma NumberOf(objs: seq<Obj>, slots: map<Bytes, nat>)
    ensures ClientOf(objs, slots).next == |objs| && ClientOf(objs, slots).cached == slots
  {
  }

  lemma EachCached(order: seq<Bytes>, cached: map<Bytes, nat>, i: nat)
    requires Enumerates(order, cached) && i < |order|
    ensures order[i] in cached
  {
  }

  /** One turn of the closing loop. */
  lemma CloseStep(c: Client, rest: seq<Bytes>, table: Option<Bytes>)
    requires rest != [] && rest[0] in c.cached && c.cached[rest[0]] in c.ids
    requires Knows(c, c.cached[rest[0]], c.ids[c.cached[rest[0]]], table)
    ensures var r := c.cached[rest[0]];
            var pc := AwaitCloseCursor(r, CloseRest(rest[1..]));
            if c.ids[r] == 0 then CloseLoop(c, rest) == CloseLoop(c, rest[1..])
            else
              && CloseLoop(c, rest) == Suspended(c, pc, Op.CloseCursor(c.ids[r]))
              && forall reply :: Resume(c, pc, reply) == CloseLoop(With(c, r, 0, table), rest[1..])
  {
    var r := c.cached[rest[0]];
    if table.Some? { assert c.tables[r := table.value] == c.tables; }
    assert With(c, r, 0, table) == c.(ids := c.ids[r := 0]);
  }

  lemma CloseEnd(c: Client)
    ensures CloseLoop(c, []) == Suspended(c.(cached := map[]), AwaitClose, Close)
    ensures forall reply :: Resume(c.(cached := map[]), AwaitClose, reply) == Returned(c.(cached := map[]), NoValue)
  {
  }
}
