/**
 The client side of the key-value transaction: what `RemoteCursor` and `RemoteTransaction` do between
 suspension points, and the server they talk to.

 A coroutine suspended in `co_await` is its position `Pc` plus the state it shares; `Begin` runs a call up to
 its first suspension, `Resume` runs on from one when the reply arrives.
 */
module KvClient {
  import opened Options
  import opened WireFormat
  import C = CursorCodec
  import P = PairCodec

  const SEEK: I32 := 2
  const NEXT: I32 := 8
  const OPEN: I32 := 30
  const CLOSE: I32 := 31

  /** The five asynchronous operations. */
  datatype Op =
    | OpenCursor(table: Bytes)
    | Seek(cursorId: U32, key: Bytes)
    | Next(cursorId: U32)
    | CloseCursor(cursorId: U32)
    | Close

  /** The message an operation writes; `Close` writes none, it half-closes the stream. */
  function Request(op: Op): C.Cursor
    requires !op.Close?
  {
    match op
    case OpenCursor(table) => C.EMPTY.(op := OPEN, bucketName := table)
    case Seek(id, key) => C.EMPTY.(op := SEEK, cursor := id, k := key)
    case Next(id) => C.EMPTY.(op := NEXT, cursor := id)
    case CloseCursor(id) => C.EMPTY.(op := CLOSE, cursor := id)
  }

  /**
   `ids` holds `cursor_id_` of every cursor object, `cached` is `cursors_`.  `tables` is a history variable:
   the table each cursor object was last opened on.
   */
  datatype Client = Client(ids: map<nat, U32>, cached: map<Bytes, nat>, tables: map<nat, Bytes>, next: nat)

  const NO_CURSORS: Client := Client(map[], map[], map[], 0)

  datatype Command =
    | GetCursor(table: Bytes)
    | NewCursor
    | OpenOn(ref: nat, table: Bytes)
    | SeekOn(ref: nat, key: Bytes)
    | NextOn(ref: nat)
    | CloseOn(ref: nat)
    | SeekOnce(ref: nat, table: Bytes, key: Bytes)
    | CloseTx(order: seq<Bytes>)

  datatype Result = NoValue | CursorIs(ref: nat) | KeyValue(k: Bytes, v: Bytes)

  datatype AfterOpen = OpenDone | CacheIt | SeekThenClose(key: Bytes)
  datatype AfterClose = CloseDone | ReturnPair(k: Bytes, v: Bytes) | CloseRest(rest: seq<Bytes>)

  datatype Pc =
    | AwaitOpen(ref: nat, table: Bytes, andThen: AfterOpen)
    | AwaitSeek(ref: nat, closeAfter: bool)
    | AwaitNext(ref: nat)
    | AwaitCloseCursor(ref: nat, after: AfterClose)
    | AwaitClose

  datatype Progress = Returned(client: Client, result: Result) | Suspended(client: Client, pc: Pc, op: Op)

  /** The order of the closing loop: every cached table once (the source's map goes in key order). */
  predicate Enumerates(order: seq<Bytes>, cached: map<Bytes, nat>) {
    && (forall i, j | 0 <= i < j < |order| :: order[i] != order[j])
    && (forall t | t in order :: t in cached)
    && (forall t | t in cached :: t in order)
  }

  predicate CanCall(c: Client, cmd: Command) {
    match cmd
    case GetCursor(_) => true
    case NewCursor => true
    case OpenOn(r, _) => r in c.ids
    case SeekOn(r, _) => r in c.ids
    case NextOn(r) => r in c.ids
    case CloseOn(r) => r in c.ids
    case SeekOnce(r, _, _) => r in c.ids
    case CloseTx(order) => Enumerates(order, c.cached)
  }

  /** Shared references are valid: cached cursors exist, each cached once, new ones get a new reference. */
  predicate Valid(c: Client) {
    && (forall r | r in c.ids :: r < c.next)
    && (forall r | r in c.ids && c.ids[r] != 0 :: r in c.tables)
    && (forall t | t in c.cached :: c.cached[t] in c.ids)
    && (forall t, u | t in c.cached && u in c.cached && t != u :: c.cached[t] != c.cached[u])
  }

  function IdOf(c: Client, r: nat): U32 {
    if r in c.ids then c.ids[r] else 0
  }

  /** `close_cursor`: only an open cursor sends a request. */
  function CloseOne(c: Client, r: nat, after: AfterClose): Progress {
    if IdOf(c, r) != 0 then Suspended(c, AwaitCloseCursor(r, after), CloseCursor(IdOf(c, r)))
    else AfterClosing(c, after)
  }

  function AfterClosing(c: Client, after: AfterClose): Progress
    decreases if after.CloseRest? then |after.rest| + 1 else 0, 0
  {
    match after
    case CloseDone => Returned(c, NoValue)
    case ReturnPair(k, v) => Returned(c, KeyValue(k, v))
    case CloseRest(rest) => CloseLoop(c, rest)
  }

  /** The rest of the loop in `close()`, then `cursors_.clear()` and the half-close. */
  function CloseLoop(c: Client, rest: seq<Bytes>): Progress
    decreases |rest|, 1
  {
    if rest == [] then Suspended(c.(cached := map[]), AwaitClose, Close)
    else if rest[0] in c.cached && IdOf(c, c.cached[rest[0]]) != 0 then
      var r := c.cached[rest[0]];
      Suspended(c, AwaitCloseCursor(r, CloseRest(rest[1..])), CloseCursor(IdOf(c, r)))
    else CloseLoop(c, rest[1..])
  }

  function Begin(c: Client, cmd: Command): Progress {
    match cmd
    case GetCursor(t) =>
      if t in c.cached then Returned(c, CursorIs(c.cached[t]))
      else Suspended(c.(ids := c.ids[c.next := 0], next := c.next + 1), AwaitOpen(c.next, t, CacheIt), OpenCursor(t))
    case NewCursor => Returned(c.(ids := c.ids[c.next := 0], next := c.next + 1), CursorIs(c.next))
    case OpenOn(r, t) =>
      if IdOf(c, r) == 0 then Suspended(c, AwaitOpen(r, t, OpenDone), OpenCursor(t)) else Returned(c, NoValue)
    case SeekOn(r, key) => Suspended(c, AwaitSeek(r, false), Seek(IdOf(c, r), key))
    case NextOn(r) => Suspended(c, AwaitNext(r), Next(IdOf(c, r)))
    case CloseOn(r) => CloseOne(c, r, CloseDone)
    case SeekOnce(r, t, key) =>
      if IdOf(c, r) == 0 then Suspended(c, AwaitOpen(r, t, SeekThenClose(key)), OpenCursor(t))
      else Suspended(c, AwaitSeek(r, true), Seek(IdOf(c, r), key))
    case CloseTx(order) => CloseLoop(c, order)
  }

  function Resume(c: Client, pc: Pc, reply: P.Pair): Progress {
    match pc
    case AwaitOpen(r, t, andThen) =>
      var c' := c.(ids := c.ids[r := reply.cursorId], tables := c.tables[r := t]);
      (match andThen
       case OpenDone => Returned(c', NoValue)
       case CacheIt => Returned(c'.(cached := c'.cached[t := r]), CursorIs(r))
       case SeekThenClose(key) => Suspended(c', AwaitSeek(r, true), Seek(reply.cursorId, key)))
    case AwaitSeek(r, closeAfter) =>
      if closeAfter then CloseOne(c, r, ReturnPair(reply.k, reply.v)) else Returned(c, KeyValue(reply.k, reply.v))
    case AwaitNext(r) => Returned(c, KeyValue(reply.k, reply.v))
    case AwaitCloseCursor(r, after) => AfterClosing(c.(ids := c.ids[r := 0]), after)
    case AwaitClose => Returned(c, NoValue)
  }

  // ---- The server ----

  datatype Exchange = Exchange(req: C.Cursor, reply: P.Pair)

  /** The server's open cursors, each with its table, after answering `x`. */
  function ServerNext(open: map<U32, Bytes>, x: Exchange): map<U32, Bytes> {
    if x.req.op == OPEN then open[x.reply.cursorId := x.req.bucketName]
    else if x.req.op == CLOSE then open - {x.req.cursor}
    else open
  }

  /** A new cursor gets a nonzero id that is not in use; every other reply is free. */
  predicate ReplyOk(open: map<U32, Bytes>, x: Exchange) {
    x.req.op == OPEN ==> x.reply.cursorId != 0 && x.reply.cursorId !in open
  }

  /** The server's open cursors after the exchanges `xs`, from `open` on. */
  function After(open: map<U32, Bytes>, xs: seq<Exchange>): map<U32, Bytes> {
    if xs == [] then open else ServerNext(After(open, xs[..|xs| - 1]), xs[|xs| - 1])
  }

  predicate Legal(open: map<U32, Bytes>, xs: seq<Exchange>) {
    xs == [] || (Legal(open, xs[..|xs| - 1]) && ReplyOk(After(open, xs[..|xs| - 1]), xs[|xs| - 1]))
  }

  lemma AfterLast(open: map<U32, Bytes>, xs: seq<Exchange>, x: Exchange)
    ensures After(open, xs + [x]) == ServerNext(After(open, xs), x)
    ensures Legal(open, xs + [x]) <==> Legal(open, xs) && ReplyOk(After(open, xs), x)
  {
    assert (xs + [x])[..|xs|] == xs;
  }

  lemma {:induction false} AfterConcat(open: map<U32, Bytes>, xs: seq<Exchange>, ys: seq<Exchange>)
    ensures After(open, xs + ys) == After(After(open, xs), ys)
    ensures Legal(open, xs + ys) <==> Legal(open, xs) && Legal(After(open, xs), ys)
    decreases |ys|
  {
    if ys == [] {
      assert xs + ys == xs;
    } else {
      var front, y := ys[..|ys| - 1], ys[|ys| - 1];
      AfterConcat(open, xs, front);
      AfterLast(open, xs + front, y);
      assert xs + front + [y] == xs + ys;
    }
  }

  // ---- Client and server agree ----

  /** The nonzero ids of the cursor objects are distinct and are exactly the server's open cursors. */
  ghost predicate Conserved(c: Client, open: map<U32, Bytes>) {
    && Valid(c)
    && 0 !in open
    && (forall r | r in c.ids && c.ids[r] != 0 :: c.ids[r] in open && open[c.ids[r]] == c.tables[r])
    && (forall r, q | r in c.ids && q in c.ids && r != q && c.ids[r] != 0 :: c.ids[r] != c.ids[q])
    && (forall id | id in open :: exists r :: r in c.ids && c.ids[r] == id)
  }

  /** A suspended coroutine waits for the operation its position says. */
  ghost predicate Waits(c: Client, pc: Pc, op: Op) {
    match pc
    case AwaitOpen(r, t, andThen) =>
      && r in c.ids && c.ids[r] == 0 && op == OpenCursor(t)
      && (andThen.CacheIt? ==> t !in c.cached && forall u | u in c.cached :: c.cached[u] != r)
    case AwaitSeek(r, _) => r in c.ids && op.Seek? && op.cursorId == c.ids[r]
    case AwaitNext(r) => r in c.ids && op == Next(c.ids[r])
    case AwaitCloseCursor(r, _) => r in c.ids && c.ids[r] != 0 && op == CloseCursor(c.ids[r])
    case AwaitClose => op == Close && c.cached == map[]
  }

  ghost predicate Consistent(p: Progress, open: map<U32, Bytes>) {
    Conserved(p.client, open) && (p.Suspended? ==> Waits(p.client, p.pc, p.op))
  }

  lemma {:induction false} CloseLoopConsistent(c: Client, rest: seq<Bytes>, open: map<U32, Bytes>)
    requires Conserved(c, open)
    ensures Consistent(CloseLoop(c, rest), open)
    decreases |rest|
  {
    if rest != [] && !(rest[0] in c.cached && IdOf(c, c.cached[rest[0]]) != 0) {
      CloseLoopConsistent(c, rest[1..], open);
    }
  }

  lemma NewCursorConserved(c: Client, open: map<U32, Bytes>)
    requires Conserved(c, open)
    ensures Conserved(c.(ids := c.ids[c.next := 0], next := c.next + 1), open)
  {
    var ids' := c.ids[c.next := 0];
    forall id | id in open ensures exists r :: r in ids' && ids'[r] == id {
      var r :| r in c.ids && c.ids[r] == id;
      assert r in ids' && ids'[r] == id;
    }
  }

  lemma BeginConsistent(c: Client, cmd: Command, open: map<U32, Bytes>)
    requires Conserved(c, open) && CanCall(c, cmd)
    ensures Consistent(Begin(c, cmd), open)
  {
    match cmd
    case GetCursor(t) => NewCursorConserved(c, open);
    case NewCursor => NewCursorConserved(c, open);
    case CloseTx(order) => CloseLoopConsistent(c, order, open);
    case _ =>
  }

  lemma OpenedConserved(c: Client, r: nat, t: Bytes, id: U32, open: map<U32, Bytes>)
    requires Conserved(c, open) && r in c.ids && c.ids[r] == 0 && id != 0 && id !in open
    ensures Conserved(c.(ids := c.ids[r := id], tables := c.tables[r := t]), open[id := t])
  {
    var ids', open' := c.ids[r := id], open[id := t];
    forall k | k in open' ensures exists q :: q in ids' && ids'[q] == k {
      if k == id {
        assert r in ids' && ids'[r] == k;
      } else {
        var q :| q in c.ids && c.ids[q] == k;
        assert q in ids' && ids'[q] == k;
      }
    }
  }

  lemma ClosedConserved(c: Client, r: nat, open: map<U32, Bytes>)
    requires Conserved(c, open) && r in c.ids && c.ids[r] != 0
    ensures Conserved(c.(ids := c.ids[r := 0]), open - {c.ids[r]})
  {
    var ids', open' := c.ids[r := 0], open - {c.ids[r]};
    forall k | k in open' ensures exists q :: q in ids' && ids'[q] == k {
      var q :| q in c.ids && c.ids[q] == k;
      assert q in ids' && ids'[q] == k;
    }
  }

  lemma CachingConserved(c: Client, r: nat, t: Bytes, open: map<U32, Bytes>)
    requires Conserved(c, open) && r in c.ids && t !in c.cached && forall u | u in c.cached :: c.cached[u] != r
    ensures Conserved(c.(cached := c.cached[t := r]), open)
  {
  }

  lemma OpenAnswered(c: Client, r: nat, t: Bytes, andThen: AfterOpen, reply: P.Pair, open: map<U32, Bytes>)
    requires Conserved(c, open) && Waits(c, AwaitOpen(r, t, andThen), OpenCursor(t))
    requires reply.cursorId != 0 && reply.cursorId !in open
    ensures Consistent(Resume(c, AwaitOpen(r, t, andThen), reply), open[reply.cursorId := t])
  {
    OpenedConserved(c, r, t, reply.cursorId, open);
    if andThen.CacheIt? {
      var c' := c.(ids := c.ids[r := reply.cursorId], tables := c.tables[r := t]);
      CachingConserved(c', r, t, open[reply.cursorId := t]);
    }
  }

  lemma CloseAnswered(c: Client, r: nat, after: AfterClose, reply: P.Pair, open: map<U32, Bytes>)
    requires Conserved(c, open) && r in c.ids && c.ids[r] != 0
    ensures Consistent(Resume(c, AwaitCloseCursor(r, after), reply), open - {c.ids[r]})
  {
    ClosedConserved(c, r, open);
    if after.CloseRest? {
      CloseLoopConsistent(c.(ids := c.ids[r := 0]), after.rest, open - {c.ids[r]});
    }
  }

  /** Whatever a legal server answers, running on from a suspension keeps both sides in agreement. */
  lemma ResumeConsistent(c: Client, pc: Pc, op: Op, reply: P.Pair, open: map<U32, Bytes>)
    requires Conserved(c, open) && Waits(c, pc, op) && !op.Close?
    requires ReplyOk(open, Exchange(Request(op), reply))
    ensures Consistent(Resume(c, pc, reply), ServerNext(open, Exchange(Request(op), reply)))
  {
    match pc
    case AwaitOpen(r, t, andThen) => OpenAnswered(c, r, t, andThen, reply, open);
    case AwaitCloseCursor(r, after) => CloseAnswered(c, r, after, reply, open);
    case _ =>
  }

  // ---- Opens minus closes ----

  function CountOp(served: seq<Exchange>, op: I32): nat {
    if served == [] then 0
    else CountOp(served[..|served| - 1], op) + if served[|served| - 1].req.op == op then 1 else 0
  }

  lemma CountOpLast(served: seq<Exchange>, x: Exchange, op: I32)
    ensures CountOp(served + [x], op) == CountOp(served, op) + if x.req.op == op then 1 else 0
  {
    assert (served + [x])[..|served|] == served;
  }

  // ---- A call as a whole ----

  /** Where a call is after the replies `replies`, and the operations it has issued so far. */
  datatype Ran = Ran(progress: Progress, ops: seq<Op>)

  function Run(p: Progress, replies: seq<P.Pair>): Ran
    decreases |replies|
  {
    match p
    case Returned(_, _) => Ran(p, [])
    case Suspended(c, pc, op) =>
      if replies == [] then Ran(p, [op])
      else
        var ran := Run(Resume(c, pc, replies[0]), replies[1..]);
        Ran(ran.progress, [op] + ran.ops)
  }

  /** One more reply runs the call on by one `Resume`. */
  lemma {:induction false} RunOneMore(p: Progress, replies: seq<P.Pair>, reply: P.Pair)
    requires Run(p, replies).progress.Suspended? && |Run(p, replies).ops| == |replies| + 1
    ensures var q := Run(p, replies).progress;
            var q' := Resume(q.client, q.pc, reply);
            Run(p, replies + [reply]) ==
              Ran(q', Run(p, replies).ops + if q'.Suspended? then [q'.op] else [])
    decreases |replies|
  {
    if replies == [] {
      var q' := Resume(p.client, p.pc, reply);
      assert (replies + [reply])[1..] == [];
      assert Run(q', []) == Ran(q', if q'.Suspended? then [q'.op] else []);
    } else {
      var p' := Resume(p.client, p.pc, replies[0]);
      RunOneMore(p', replies[1..], reply);
      assert (replies + [reply])[1..] == replies[1..] + [reply];
    }
  }
}
