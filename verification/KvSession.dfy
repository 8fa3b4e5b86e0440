/**
 Sequences of calls on one transaction, as sequential code: what each call issues and returns for given
 replies.  Nothing here knows about reactors or callbacks.
 */
module KvSession {
  import opened Options
  import opened WireFormat
  import opened KvClient
  import C = CursorCodec
  import P = PairCodec

  /** A finished call: the operations it issued and the replies they got. */
  datatype Entry = Entry(
    before: Client, cmd: Command, ops: seq<Op>, replies: seq<P.Pair>, after: Client, result: Result)

  /** The call is what the code does with these replies. */
  predicate Explained(e: Entry) {
    && CanCall(e.before, e.cmd)
    && |e.replies| == |e.ops|
    && Run(Begin(e.before, e.cmd), e.replies) == Ran(Returned(e.after, e.result), e.ops)
  }

  /** Calls made one after the other, ending with client `c`. */
  predicate Chained(es: seq<Entry>, c: Client) {
    if es == [] then c == NO_CURSORS
    else
      var e := es[|es| - 1];
      e.after == c && Explained(e) && Chained(es[..|es| - 1], e.before)
  }

  function AllOps(es: seq<Entry>): seq<Op> {
    if es == [] then [] else AllOps(es[..|es| - 1]) + es[|es| - 1].ops
  }

  function AllReplies(es: seq<Entry>): seq<P.Pair> {
    if es == [] then [] else AllReplies(es[..|es| - 1]) + es[|es| - 1].replies
  }

  /** The exchanges behind operations and their replies; `Close` exchanges nothing. */
  function Exchanges(ops: seq<Op>, replies: seq<P.Pair>): seq<Exchange>
    requires |ops| == |replies|
  {
    if ops == [] then []
    else
      var n := |ops| - 1;
      Exchanges(ops[..n], replies[..n]) + if ops[n].Close? then [] else [Exchange(Request(ops[n]), replies[n])]
  }

  // ---- close() ----

  /** One CLOSE for each cached cursor that is open, in order, then the half-close. */
  function CloseOps(c: Client, order: seq<Bytes>): seq<Op> {
    if order == [] then [Close]
    else
      (if order[0] in c.cached && IdOf(c, c.cached[order[0]]) != 0 then [CloseCursor(IdOf(c, c.cached[order[0]]))]
       else [])
      + CloseOps(c, order[1..])
  }

  /** Every cursor cached for a table in `order` is back at id 0. */
  function ZeroIds(c: Client, order: seq<Bytes>): map<nat, U32> {
    map r | r in c.ids :: if exists t :: t in order && t in c.cached && c.cached[t] == r then 0 else c.ids[r]
  }

  lemma {:induction false} CloseOpsFrame(c: Client, d: Client, order: seq<Bytes>)
    requires c.cached == d.cached
    requires forall t | t in order && t in c.cached :: IdOf(c, c.cached[t]) == IdOf(d, d.cached[t])
    ensures CloseOps(c, order) == CloseOps(d, order)
  {
    if order != [] {
      assert order[0] in order;
      CloseOpsFrame(c, d, order[1..]);
    }
  }

  predicate Distinct(order: seq<Bytes>) {
    forall i, j | 0 <= i < j < |order| :: order[i] != order[j]
  }

  lemma ZeroIdsStep(c: Client, order: seq<Bytes>)
    requires Valid(c) && order != [] && order[0] in c.cached
    ensures ZeroIds(c.(ids := c.ids[c.cached[order[0]] := 0]), order[1..]) == ZeroIds(c, order)
  {
    var d := c.(ids := c.ids[c.cached[order[0]] := 0]);
    forall r | r in c.ids
      ensures ZeroIds(d, order[1..])[r] == ZeroIds(c, order)[r]
    {
      if exists t :: t in order && t in c.cached && c.cached[t] == r {
        var t :| t in order && t in c.cached && c.cached[t] == r;
        if t != order[0] { assert t in order[1..]; }
      } else {
        assert order[0] in order;
      }
    }
  }

  lemma NoZeroIds(c: Client)
    ensures ZeroIds(c, []) == c.ids
  {
  }

  /** The closing loop, for any replies. */
  lemma {:induction false} CloseLoopRuns(c: Client, order: seq<Bytes>, replies: seq<P.Pair>)
    requires Valid(c) && Distinct(order) && (forall t | t in order :: t in c.cached)
    requires |replies| == |CloseOps(c, order)|
    ensures Run(CloseLoop(c, order), replies) ==
            Ran(Returned(c.(ids := ZeroIds(c, order), cached := map[]), NoValue), CloseOps(c, order))
    decreases |order|
  {
    hide ZeroIds;
    NoZeroIds(c);
    if order == [] {
      var c' := c.(cached := map[]);
      assert Run(Resume(c', AwaitClose, replies[0]), replies[1..]) == Ran(Returned(c', NoValue), []);
    } else {
      assert order[0] in order;
      var r, rest := c.cached[order[0]], order[1..];
      var d := c.(ids := c.ids[r := 0]);
      forall t | t in rest ensures t in c.cached && IdOf(c, c.cached[t]) == IdOf(d, d.cached[t]) {
        assert t in order && t != order[0];
      }
      CloseOpsFrame(c, d, rest);
      ZeroIdsStep(c, order);
      if c.ids[r] == 0 {
        assert c.ids[r := 0] == c.ids;
        CloseLoopRuns(c, rest, replies);
      } else {
        CloseLoopRuns(d, rest, replies[1..]);
      }
    }
  }

  /**
   `close()`: one CLOSE per cached cursor with a nonzero id and none for the rest, then the half-close; the
   cache is empty and every formerly cached cursor is at id 0, all others are as they were.
   */
  lemma CloseClosesEverything(e: Entry)
    requires Explained(e) && e.cmd.CloseTx? && Valid(e.before)
    ensures e.ops == CloseOps(e.before, e.cmd.order)
    ensures e.after.cached == map[]
    ensures e.after.ids.Keys == e.before.ids.Keys
    ensures forall t | t in e.before.cached :: e.after.ids[e.before.cached[t]] == 0
    ensures forall r | r in e.before.ids && r !in e.before.cached.Values :: e.after.ids[r] == e.before.ids[r]
  {
    var c, order := e.before, e.cmd.order;
    RunPrefix(c, order, e.replies);
    CloseLoopRuns(c, order, e.replies);
    forall t | t in c.cached ensures e.after.ids[c.cached[t]] == 0 {
      assert t in order;
    }
  }

  /** A closing loop that returned has had exactly as many replies as it issues operations. */
  lemma {:induction false} RunPrefix(c: Client, order: seq<Bytes>, replies: seq<P.Pair>)
    requires Valid(c) && Distinct(order) && (forall t | t in order :: t in c.cached)
    requires Run(CloseLoop(c, order), replies).progress.Returned?
    requires |Run(CloseLoop(c, order), replies).ops| == |replies|
    ensures |replies| == |CloseOps(c, order)|
    decreases |order|
  {
    if order == [] {
      assert replies != [];
      assert Run(Resume(c.(cached := map[]), AwaitClose, replies[0]), replies[1..]).ops == [];
    } else {
      assert order[0] in order;
      var r, rest := c.cached[order[0]], order[1..];
      if c.ids[r] == 0 {
        RunPrefix(c, rest, replies);
      } else {
        var d := c.(ids := c.ids[r := 0]);
        forall t | t in rest ensures t in c.cached && IdOf(c, c.cached[t]) == IdOf(d, d.cached[t]) {
          assert t in order && t != order[0];
        }
        CloseOpsFrame(c, d, rest);
        assert replies != [];
        RunPrefix(d, rest, replies[1..]);
      }
    }
  }

  // ---- A server whose SEEK replies depend only on table and key ----

  type Lookup = (Bytes, Bytes) -> (Bytes, Bytes)

  predicate SeekOk(f: Lookup, open: map<U32, Bytes>, x: Exchange) {
    x.req.op == SEEK && x.req.cursor in open ==> (x.reply.k, x.reply.v) == f(open[x.req.cursor], x.req.k)
  }

  predicate LooksUp(f: Lookup, open: map<U32, Bytes>, xs: seq<Exchange>) {
    xs == [] || (LooksUp(f, open, xs[..|xs| - 1]) && SeekOk(f, After(open, xs[..|xs| - 1]), xs[|xs| - 1]))
  }

  /** The server was legal and looked up, over the exchanges of call `e`. */
  ghost predicate ServedWell(f: Lookup, open: map<U32, Bytes>, e: Entry) {
    && |e.ops| == |e.replies|
    && Legal(open, Exchanges(e.ops, e.replies))
    && LooksUp(f, open, Exchanges(e.ops, e.replies))
  }

  lemma ExchangesLast(ops: seq<Op>, replies: seq<P.Pair>, op: Op, reply: P.Pair)
    requires |ops| == |replies|
    ensures Exchanges(ops + [op], replies + [reply]) ==
            Exchanges(ops, replies) + if op.Close? then [] else [Exchange(Request(op), reply)]
  {
    assert (ops + [op])[..|ops|] == ops && (replies + [reply])[..|ops|] == replies;
  }

  lemma NoExchanges()
    ensures Exchanges([], []) == []
  {
  }

  lemma LooksUpLast(f: Lookup, open: map<U32, Bytes>, xs: seq<Exchange>, x: Exchange)
    ensures LooksUp(f, open, xs + [x]) <==> LooksUp(f, open, xs) && SeekOk(f, After(open, xs), x)
  {
    assert (xs + [x])[..|xs|] == xs;
  }

  /** A seek on an open cursor returns the entry of the table it was opened on. */
  lemma SeekIsLookup(f: Lookup, open: map<U32, Bytes>, e: Entry)
    requires Explained(e) && e.cmd.SeekOn? && Conserved(e.before, open) && e.before.ids[e.cmd.ref] != 0
    requires ServedWell(f, open, e)
    ensures var (k, v) := f(e.before.tables[e.cmd.ref], e.cmd.key); e.result == KeyValue(k, v)
    ensures e.after == e.before
    ensures e.ops == [Seek(e.before.ids[e.cmd.ref], e.cmd.key)]
  {
    var c, r := e.before, e.cmd.ref;
    var op := Seek(c.ids[r], e.cmd.key);
    assert Begin(c, e.cmd) == Suspended(c, AwaitSeek(r, false), op);
    assert e.replies != [];
    var reply := e.replies[0];
    assert Run(Resume(c, AwaitSeek(r, false), reply), e.replies[1..]) ==
           Ran(Returned(c, KeyValue(reply.k, reply.v)), []);
    assert e.ops == [op] && e.replies == [reply];
    ExchangesLast([], [], op, reply);
    assert [] + [op] == [op] && [] + [reply] == [reply];
    LooksUpLast(f, open, [], Exchange(Request(op), reply));
    assert Exchanges(e.ops, e.replies) == [] + [Exchange(Request(op), reply)];
  }

  /** What OPEN, SEEK and CLOSE in one call come to: the three operations, and the SEEK reply as the result. */
  lemma OneShotRuns(c: Client, r: nat, t: Bytes, key: Bytes, open: P.Pair, seek: P.Pair, close: P.Pair)
    requires r in c.ids && c.ids[r] == 0 && open.cursorId != 0
    ensures Run(Begin(c, SeekOnce(r, t, key)), [open, seek, close]) ==
            Ran(Returned(c.(tables := c.tables[r := t]), KeyValue(seek.k, seek.v)),
                [OpenCursor(t), Seek(open.cursorId, key), CloseCursor(open.cursorId)])
  {
    var c1 := c.(ids := c.ids[r := open.cursorId], tables := c.tables[r := t]);
    var c2 := c1.(ids := c1.ids[r := 0]);
    assert c2.ids == c.ids;
    var done := Returned(c2, KeyValue(seek.k, seek.v));
    var closing := AwaitCloseCursor(r, ReturnPair(seek.k, seek.v));
    assert [open, seek, close][1..] == [seek, close] && [seek, close][1..] == [close] && [close][1..] == [];
    assert Run(done, []) == Ran(done, []);
    assert Run(Suspended(c1, closing, CloseCursor(open.cursorId)), [close]) == Ran(done, [CloseCursor(open.cursorId)]);
    assert Run(Suspended(c1, AwaitSeek(r, true), Seek(open.cursorId, key)), [seek, close]) ==
           Ran(done, [Seek(open.cursorId, key), CloseCursor(open.cursorId)]);
  }

  /** A one-shot seek on a closed cursor takes exactly three replies. */
  lemma OneShotReplies(e: Entry)
    requires Explained(e) && e.cmd.SeekOnce? && e.before.ids[e.cmd.ref] == 0
    requires |e.replies| > 0 ==> e.replies[0].cursorId != 0
    ensures |e.replies| == 3
  {
    var c, r, t, key := e.before, e.cmd.ref, e.cmd.table, e.cmd.key;
    assert e.replies != [];
    var open := e.replies[0];
    var c1 := c.(ids := c.ids[r := open.cursorId], tables := c.tables[r := t]);
    var p1 := Suspended(c1, AwaitSeek(r, true), Seek(open.cursorId, key));
    var rest1 := e.replies[1..];
    assert Run(p1, rest1).progress.Returned?;
    assert rest1 != [];
    var closing := AwaitCloseCursor(r, ReturnPair(rest1[0].k, rest1[0].v));
    var p2 := Suspended(c1, closing, CloseCursor(open.cursorId));
    var rest2 := rest1[1..];
    assert Run(p2, rest2).progress.Returned?;
    assert rest2 != [];
    assert Run(Resume(c1, closing, rest2[0]), rest2[1..]).ops == [];
  }

  /** On a cursor that is open already, OPEN is not sent: SEEK and CLOSE. */
  lemma OneShotOnOpen(e: Entry)
    requires Explained(e) && e.cmd.SeekOnce? && e.before.ids[e.cmd.ref] != 0
    ensures var id := e.before.ids[e.cmd.ref];
            && |e.replies| == 2 && e.ops == [Seek(id, e.cmd.key), CloseCursor(id)]
            && e.result == KeyValue(e.replies[0].k, e.replies[0].v)
            && e.after == e.before.(ids := e.before.ids[e.cmd.ref := 0])
  {
    var c, r, id := e.before, e.cmd.ref, e.before.ids[e.cmd.ref];
    var p := Suspended(c, AwaitSeek(r, true), Seek(id, e.cmd.key));
    assert Begin(c, e.cmd) == p && e.replies != [];
    var rest := e.replies[1..];
    var closing := AwaitCloseCursor(r, ReturnPair(e.replies[0].k, e.replies[0].v));
    var q := Suspended(c, closing, CloseCursor(id));
    assert Resume(c, p.pc, e.replies[0]) == q;
    assert Run(p, e.replies).progress == Run(q, rest).progress;
    assert rest != [];
    var end := Resume(c, closing, rest[0]);
    assert Run(end, rest[1..]) == Ran(end, []);
    assert Run(q, rest) == Ran(end, [CloseCursor(id)]);
  }

  /** The table a one-shot seek looks in: that of the cursor if it is open already, whatever the argument says. */
  function OneShotTable(e: Entry): Bytes
    requires e.cmd.SeekOnce?
  {
    var c, r := e.before, e.cmd.ref;
    if IdOf(c, r) != 0 && r in c.tables then c.tables[r] else e.cmd.table
  }

  lemma ClosedOneShot(f: Lookup, open: map<U32, Bytes>, e: Entry)
    requires Explained(e) && e.cmd.SeekOnce? && e.before.ids[e.cmd.ref] == 0
    requires ServedWell(f, open, e)
    ensures var (k, v) := f(e.cmd.table, e.cmd.key); e.result == KeyValue(k, v)
    ensures e.after == e.before.(tables := e.before.tables[e.cmd.ref := e.cmd.table])
  {
    var c, r, t, key := e.before, e.cmd.ref, e.cmd.table, e.cmd.key;
    assert e.replies != [];
    var r0 := e.replies[0];
    FirstExchange(open, e.ops, e.replies);
    OneShotReplies(e);
    var r1, r2 := e.replies[1], e.replies[2];
    assert e.replies == [r0, r1, r2];
    OneShotRuns(c, r, t, key, r0, r1, r2);
    var o0, o1, o2 := OpenCursor(t), Seek(r0.cursorId, key), CloseCursor(r0.cursorId);
    ThreeExchanges(o0, o1, o2, r0, r1, r2);
    MiddleLooksUp(f, open, Exchange(Request(o0), r0), Exchange(Request(o1), r1), Exchange(Request(o2), r2));
  }

  /** What a server that looks up means for the one-shot seek on an open cursor: one equation on its first reply. */
  lemma OpenOneShotServed(f: Lookup, open: map<U32, Bytes>, e: Entry)
    requires Explained(e) && e.cmd.SeekOnce? && e.before.ids[e.cmd.ref] != 0 && Conserved(e.before, open)
    requires Legal(open, Exchanges(e.ops, e.replies))
    ensures |e.replies| == 2
    ensures ServedWell(f, open, e) <==>
              (e.replies[0].k, e.replies[0].v) == f(e.before.tables[e.cmd.ref], e.cmd.key)
  {
    hide Explained, Legal, Exchanges, LooksUp;
    KnownRef(e);
    OneShotOnOpen(e);
    var id := e.before.ids[e.cmd.ref];
    assert e.replies == [e.replies[0], e.replies[1]];
    SeekThenClose(f, open, id, e.cmd.key, e.replies[0], e.replies[1]);
  }

  lemma KnownRef(e: Entry)
    requires Explained(e) && e.cmd.SeekOnce?
    ensures e.cmd.ref in e.before.ids && |e.ops| == |e.replies|
  {
  }

  lemma SeekThenClose(f: Lookup, open: map<U32, Bytes>, id: U32, key: Bytes, r0: P.Pair, r1: P.Pair)
    requires id in open
    ensures LooksUp(f, open, Exchanges([Seek(id, key), CloseCursor(id)], [r0, r1])) <==>
              (r0.k, r0.v) == f(open[id], key)
  {
    hide Exchanges, LooksUp;
    var o0, o1 := Seek(id, key), CloseCursor(id);
    var x0, x1 := Exchange(Request(o0), r0), Exchange(Request(o1), r1);
    TwoExchanges(o0, o1, r0, r1);
    NothingLooksUp(f, open);
    LooksUpLast(f, open, [], x0);
    LooksUpLast(f, open, [x0], x1);
    assert [] + [x0] == [x0] && [x0] + [x1] == [x0, x1];
  }

  lemma NothingLooksUp(f: Lookup, open: map<U32, Bytes>)
    ensures LooksUp(f, open, []) && After(open, []) == open
  {
  }

  /**
   The one-shot seek returns the entry of the cursor's own table if the cursor is open, of the requested table
   otherwise, and leaves the cursor closed.
   */
  lemma OneShotIsLookup(f: Lookup, open: map<U32, Bytes>, e: Entry)
    requires Explained(e) && e.cmd.SeekOnce? && ServedWell(f, open, e)
    requires e.before.ids[e.cmd.ref] != 0 ==> Conserved(e.before, open)
    ensures var (k, v) := f(OneShotTable(e), e.cmd.key); e.result == KeyValue(k, v)
    ensures e.after ==
            if e.before.ids[e.cmd.ref] == 0 then e.before.(tables := e.before.tables[e.cmd.ref := e.cmd.table])
            else e.before.(ids := e.before.ids[e.cmd.ref := 0])
  {
    hide Explained, ServedWell, Legal, Exchanges, LooksUp;
    KnownRef(e);
    if e.before.ids[e.cmd.ref] == 0 {
      ClosedOneShot(f, open, e);
    } else {
      ServedWellIsLegal(f, open, e);
      OneShotOnOpen(e);
      OpenOneShotServed(f, open, e);
    }
  }

  lemma ServedWellIsLegal(f: Lookup, open: map<U32, Bytes>, e: Entry)
    requires ServedWell(f, open, e)
    ensures |e.ops| == |e.replies| && Legal(open, Exchanges(e.ops, e.replies))
  {
  }

  /**
   The one-shot seek gives the entry of the requested table, whatever the server holds, if and only if the cursor
   was closed or was open on that very table.
   */
  lemma OneShotTableMatters(open: map<U32, Bytes>, e: Entry)
    requires Explained(e) && e.cmd.SeekOnce? && Conserved(e.before, open)
    requires Legal(open, Exchanges(e.ops, e.replies))
    ensures (forall f | ServedWell(f, open, e) ::
               e.result == KeyValue(f(e.cmd.table, e.cmd.key).0, f(e.cmd.table, e.cmd.key).1))
            <==> e.before.ids[e.cmd.ref] == 0 || e.before.tables[e.cmd.ref] == e.cmd.table
  {
    hide Explained, ServedWell, Legal, Exchanges, LooksUp;
    KnownRef(e);
    var t, r := e.cmd.table, e.cmd.ref;
    if e.before.ids[r] == 0 || e.before.tables[r] == t {
      forall f | ServedWell(f, open, e) ensures e.result == KeyValue(f(t, e.cmd.key).0, f(t, e.cmd.key).1) {
        OneShotIsLookup(f, open, e);
      }
    } else {
      OneShotOnOpen(e);
      var found := (e.replies[0].k, e.replies[0].v);
      var f: Lookup := (table, key) => if table == t then (found.0 + [0], found.1) else found;
      OpenOneShotServed(f, open, e);
      assert f(t, e.cmd.key).0 == found.0 + [0] != found.0;
    }
  }

  /** An input on which it is not: cursor 0 is open on table [1], and the call asks for table [2]. */
  lemma OneShotIgnoresTable(seek: P.Pair, close: P.Pair)
    ensures var c := Client(map[0 := 7], map[], map[0 := [1]], 1);
            && Conserved(c, map[7 := [1]])
            && Run(Begin(c, SeekOnce(0, [2], [9])), [seek, close]) ==
                 Ran(Returned(c.(ids := map[0 := 0]), KeyValue(seek.k, seek.v)), [Seek(7, [9]), CloseCursor(7)])
  {
    var c := Client(map[0 := 7], map[], map[0 := [1]], 1);
    assert c.ids[0] == 7;
    var closing := AwaitCloseCursor(0, ReturnPair(seek.k, seek.v));
    var done := Returned(c.(ids := c.ids[0 := 0]), KeyValue(seek.k, seek.v));
    assert c.ids[0 := 0] == map[0 := 0];
    assert [seek, close][1..] == [close] && [close][1..] == [];
    assert Run(done, []) == Ran(done, []);
    assert Run(Suspended(c, closing, CloseCursor(7)), [close]) == Ran(done, [CloseCursor(7)]);
  }

  lemma TwoExchanges(o0: Op, o1: Op, r0: P.Pair, r1: P.Pair)
    requires !o0.Close? && !o1.Close?
    ensures Exchanges([o0, o1], [r0, r1]) == [Exchange(Request(o0), r0), Exchange(Request(o1), r1)]
  {
    hide Request, Exchanges;
    NoExchanges();
    ExchangesLast([], [], o0, r0);
    ExchangesLast([o0], [r0], o1, r1);
    assert [] + [o0] == [o0] && [] + [r0] == [r0];
    assert [o0] + [o1] == [o0, o1] && [r0] + [r1] == [r0, r1];
  }

  lemma ThreeExchanges(o0: Op, o1: Op, o2: Op, r0: P.Pair, r1: P.Pair, r2: P.Pair)
    requires !o0.Close? && !o1.Close? && !o2.Close?
    ensures Exchanges([o0, o1, o2], [r0, r1, r2]) ==
            [Exchange(Request(o0), r0), Exchange(Request(o1), r1), Exchange(Request(o2), r2)]
  {
    hide Request, Exchanges;
    NoExchanges();
    ExchangesLast([], [], o0, r0);
    ExchangesLast([o0], [r0], o1, r1);
    ExchangesLast([o0, o1], [r0, r1], o2, r2);
    assert [] + [o0] == [o0] && [] + [r0] == [r0];
    assert [o0] + [o1] == [o0, o1] && [r0] + [r1] == [r0, r1];
    assert [o0, o1] + [o2] == [o0, o1, o2] && [r0, r1] + [r2] == [r0, r1, r2];
  }

  lemma MiddleLooksUp(f: Lookup, open: map<U32, Bytes>, x0: Exchange, x1: Exchange, x2: Exchange)
    requires LooksUp(f, open, [x0, x1, x2])
    ensures SeekOk(f, ServerNext(open, x0), x1)
  {
    LooksUpLast(f, open, [x0, x1], x2);
    LooksUpLast(f, open, [x0], x1);
    AfterLast(open, [], x0);
    assert [x0, x1] + [x2] == [x0, x1, x2] && [x0] + [x1] == [x0, x1] && [] + [x0] == [x0];
  }

  /** In a legal history the first exchange is legal. */
  lemma {:induction false} FirstExchange(open: map<U32, Bytes>, ops: seq<Op>, replies: seq<P.Pair>)
    requires |ops| == |replies| && ops != [] && !ops[0].Close? && Legal(open, Exchanges(ops, replies))
    ensures ReplyOk(open, Exchange(Request(ops[0]), replies[0]))
    decreases |ops|
  {
    var n := |ops| - 1;
    var xs := Exchanges(ops[..n], replies[..n]);
    if ops[n].Close? {
      assert Exchanges(ops, replies) == xs;
    } else {
      AfterLast(open, xs, Exchange(Request(ops[n]), replies[n]));
    }
    if n > 0 { FirstExchange(open, ops[..n], replies[..n]); }
  }

  // ---- Whole sessions ----

  lemma {:induction false} ExchangesFirst(op: Op, reply: P.Pair, ops: seq<Op>, replies: seq<P.Pair>)
    requires |ops| == |replies|
    ensures Exchanges([op] + ops, [reply] + replies) ==
            (if op.Close? then [] else [Exchange(Request(op), reply)]) + Exchanges(ops, replies)
    decreases |ops|
  {
    hide Request, Exchanges;
    if ops == [] {
      NoExchanges();
      ExchangesLast([], [], op, reply);
      assert [] + [op] == [op] + ops && [] + [reply] == [reply] + replies;
    } else {
      var n := |ops| - 1;
      ExchangesFirst(op, reply, ops[..n], replies[..n]);
      assert ops == ops[..n] + [ops[n]] && replies == replies[..n] + [replies[n]];
      ExchangesLast(ops[..n], replies[..n], ops[n], replies[n]);
      ExchangesLast([op] + ops[..n], [reply] + replies[..n], ops[n], replies[n]);
      assert [op] + ops == [op] + ops[..n] + [ops[n]] && [reply] + replies == [reply] + replies[..n] + [replies[n]];
    }
  }

  /** A call that runs to its end against a legal server keeps client and server in agreement. */
  lemma {:induction false} RunConserves(p: Progress, replies: seq<P.Pair>, open: map<U32, Bytes>)
    requires Consistent(p, open)
    requires Run(p, replies).progress.Returned? && |Run(p, replies).ops| == |replies|
    requires Legal(open, Exchanges(Run(p, replies).ops, replies))
    ensures Conserved(Run(p, replies).progress.client, After(open, Exchanges(Run(p, replies).ops, replies)))
    decreases |replies|
  {
    hide Exchanges, Conserved;
    NoExchanges();
    if p.Suspended? {
      var p' := Resume(p.client, p.pc, replies[0]);
      var ops := Run(p', replies[1..]).ops;
      assert [replies[0]] + replies[1..] == replies;
      ExchangesFirst(p.op, replies[0], ops, replies[1..]);
      if p.op.Close? {
        assert p'.Returned? && Conserved(p'.client, open);
        assert [] + Exchanges(ops, replies[1..]) == Exchanges(ops, replies[1..]);
        RunConserves(p', replies[1..], open);
      } else {
        var x := Exchange(Request(p.op), replies[0]);
        AfterConcat(open, [x], Exchanges(ops, replies[1..]));
        AfterLast(open, [], x);
        assert [] + [x] == [x];
        ResumeConsistent(p.client, p.pc, p.op, replies[0], open);
        RunConserves(p', replies[1..], ServerNext(open, x));
      }
    }
  }

  function EntryExchanges(e: Entry): seq<Exchange> {
    if |e.ops| == |e.replies| then Exchanges(e.ops, e.replies) else []
  }

  /** The server's open cursors after the calls `es`. */
  function OpenAt(es: seq<Entry>): map<U32, Bytes> {
    if es == [] then map[] else After(OpenAt(es[..|es| - 1]), EntryExchanges(es[|es| - 1]))
  }

  ghost predicate SessionLegal(es: seq<Entry>) {
    es == [] || (SessionLegal(es[..|es| - 1]) && Legal(OpenAt(es[..|es| - 1]), EntryExchanges(es[|es| - 1])))
  }

  /** After any calls against a legal server, client ids and server cursors correspond one to one. */
  lemma {:induction false} SessionConserves(es: seq<Entry>, c: Client)
    requires Chained(es, c) && SessionLegal(es)
    ensures Conserved(c, OpenAt(es))
    decreases |es|
  {
    if es != [] {
      var front, e := es[..|es| - 1], es[|es| - 1];
      SessionConserves(front, e.before);
      BeginConsistent(e.before, e.cmd, OpenAt(front));
      RunConserves(Begin(e.before, e.cmd), e.replies, OpenAt(front));
    }
  }

  // ---- Cached cursors ----

  ghost predicate IsCached(c: Client, r: nat, t: Bytes) {
    t in c.cached && c.cached[t] == r
  }

  /** Only `cursor(table)` and seeks on cursors it handed out. */
  ghost predicate CacheOnly(e: Entry) {
    e.cmd.GetCursor? || (e.cmd.SeekOn? && exists t :: IsCached(e.before, e.cmd.ref, t))
  }

  predicate CacheOpen(c: Client) {
    forall t | t in c.cached :: c.cached[t] in c.ids && c.ids[c.cached[t]] != 0
                             && c.cached[t] in c.tables && c.tables[c.cached[t]] == t
  }

  ghost predicate SessionLooksUp(f: Lookup, es: seq<Entry>) {
    es == [] || (SessionLooksUp(f, es[..|es| - 1]) && ServedWell(f, OpenAt(es[..|es| - 1]), es[|es| - 1]))
  }

  lemma {:induction false} LooksUpIsLegal(f: Lookup, es: seq<Entry>)
    requires SessionLooksUp(f, es)
    ensures SessionLegal(es)
    decreases |es|
  {
    if es != [] { LooksUpIsLegal(f, es[..|es| - 1]); }
  }

  /** `cursor(table)`: the cached cursor without any exchange, or a new one that is opened and cached. */
  lemma GetCursorRuns(e: Entry, open: map<U32, Bytes>)
    requires Explained(e) && e.cmd.GetCursor? && Legal(open, EntryExchanges(e))
    ensures e.cmd.table in e.before.cached ==> e.ops == [] && e.after == e.before
    ensures e.cmd.table !in e.before.cached ==>
              && e.ops == [OpenCursor(e.cmd.table)]
              && |e.replies| == 1 && e.replies[0].cursorId != 0
              && e.after == Client(
                   e.before.ids[e.before.next := e.replies[0].cursorId], e.before.cached[e.cmd.table := e.before.next],
                   e.before.tables[e.before.next := e.cmd.table], e.before.next + 1)
    ensures e.cmd.table in e.after.cached && e.result == CursorIs(e.after.cached[e.cmd.table])
  {
    var c, t := e.before, e.cmd.table;
    if t !in c.cached {
      assert e.replies != [];
      var c1 := c.(ids := c.ids[c.next := 0], next := c.next + 1);
      var p' := Resume(c1, AwaitOpen(c.next, t, CacheIt), e.replies[0]);
      assert Run(p', e.replies[1..]) == Ran(p', []);
      assert e.replies == [e.replies[0]];
      FirstExchange(open, e.ops, e.replies);
      assert c.ids[c.next := 0][c.next := e.replies[0].cursorId] == c.ids[c.next := e.replies[0].cursorId];
    }
  }

  /** Every table in the cache was opened once by `ops`, no other table ever. */
  ghost predicate OpenedOnce(ops: seq<Op>, c: Client) {
    forall t :: multiset(ops)[OpenCursor(t)] == if t in c.cached then 1 else 0
  }

  ghost predicate FoundIn(f: Lookup, e: Entry) {
    forall t | e.cmd.SeekOn? && IsCached(e.before, e.cmd.ref, t) ::
      e.result == KeyValue(f(t, e.cmd.key).0, f(t, e.cmd.key).1)
  }

  function Asked(es: seq<Entry>): set<Bytes> {
    set e | e in es && e.cmd.GetCursor? :: e.cmd.table
  }

  lemma ConservedIsValid(c: Client, open: map<U32, Bytes>)
    requires Conserved(c, open)
    ensures Valid(c)
  {
  }

  lemma CachedGet(open: map<U32, Bytes>, e: Entry)
    requires Explained(e) && e.cmd.GetCursor? && Legal(open, EntryExchanges(e))
    requires CacheOpen(e.before) && Valid(e.before)
    ensures CacheOpen(e.after)
    ensures e.after.cached.Keys == e.before.cached.Keys + {e.cmd.table}
    ensures forall t :: multiset(e.ops)[OpenCursor(t)] == if t in e.after.cached && t !in e.before.cached then 1 else 0
  {
    hide Explained, Legal, EntryExchanges;
    GetCursorRuns(e, open);
  }

  /** A seek changes no cursor and opens none. */
  lemma SeekKeepsClient(e: Entry)
    requires Explained(e) && e.cmd.SeekOn?
    ensures e.after == e.before && forall t :: multiset(e.ops)[OpenCursor(t)] == 0
  {
    var c, r := e.before, e.cmd.ref;
    var op := Seek(IdOf(c, r), e.cmd.key);
    assert Begin(c, e.cmd) == Suspended(c, AwaitSeek(r, false), op);
    assert e.replies != [];
    var p := Resume(c, AwaitSeek(r, false), e.replies[0]);
    assert Run(p, e.replies[1..]) == Ran(p, []);
    assert e.ops == [op];
  }

  lemma CachedStep(open: map<U32, Bytes>, e: Entry)
    requires Explained(e) && CacheOnly(e) && Legal(open, EntryExchanges(e))
    requires Valid(e.before) && CacheOpen(e.before)
    ensures CacheOpen(e.after)
    ensures e.after.cached.Keys == e.before.cached.Keys + if e.cmd.GetCursor? then {e.cmd.table} else {}
    ensures forall t :: multiset(e.ops)[OpenCursor(t)] == if t in e.after.cached && t !in e.before.cached then 1 else 0
  {
    hide Explained, CacheOpen, Legal, EntryExchanges, Valid;
    if e.cmd.GetCursor? {
      CachedGet(open, e);
    } else {
      SeekKeepsClient(e);
    }
  }

  lemma EmptySession()
    ensures CacheOpen(NO_CURSORS) && NO_CURSORS.cached.Keys == Asked([]) && OpenedOnce([], NO_CURSORS)
  {
  }

  lemma AskedStep(es: seq<Entry>, e: Entry)
    ensures Asked(es + [e]) == Asked(es) + if e.cmd.GetCursor? then {e.cmd.table} else {}
  {
    forall t | t in Asked(es + [e]) ensures t in Asked(es) + if e.cmd.GetCursor? then {e.cmd.table} else {} {
      var x :| x in es + [e] && x.cmd.GetCursor? && x.cmd.table == t;
      assert x in es || x == e;
    }
    forall t | t in Asked(es) + if e.cmd.GetCursor? then {e.cmd.table} else {} ensures t in Asked(es + [e]) {
      if t in Asked(es) {
        var x :| x in es && x.cmd.GetCursor? && x.cmd.table == t;
        assert x in es + [e];
      } else {
        assert e in es + [e];
      }
    }
  }

  lemma OpenedOnceStep(ops: seq<Op>, e: Entry)
    requires OpenedOnce(ops, e.before) && e.before.cached.Keys <= e.after.cached.Keys
    requires forall t :: multiset(e.ops)[OpenCursor(t)] == if t in e.after.cached && t !in e.before.cached then 1 else 0
    ensures OpenedOnce(ops + e.ops, e.after)
  {
    forall t ensures multiset(ops + e.ops)[OpenCursor(t)] == if t in e.after.cached then 1 else 0 {
      assert multiset(ops + e.ops)[OpenCursor(t)] == multiset(ops)[OpenCursor(t)] + multiset(e.ops)[OpenCursor(t)];
    }
  }

  /**
   A session of `cursor(table)` calls and seeks on the cursors they return: each table that was asked for was
   opened exactly once, all others never, and every cached cursor is open on its table.
   */
  lemma {:induction false} CachedOpens(es: seq<Entry>, c: Client)
    requires Chained(es, c) && SessionLegal(es)
    requires forall e | e in es :: CacheOnly(e)
    ensures CacheOpen(c) && c.cached.Keys == Asked(es)
    ensures OpenedOnce(AllOps(es), c)
    decreases |es|
  {
    hide CacheOpen, OpenedOnce, Conserved, Explained, CacheOnly, Asked, Legal, EntryExchanges;
    if es == [] {
      EmptySession();
    } else {
      var front, e := es[..|es| - 1], es[|es| - 1];
      assert es == front + [e];
      assert e in es && forall x :: x in es <==> x in front || x == e;
      CachedOpens(front, e.before);
      SessionConserves(front, e.before);
      ConservedIsValid(e.before, OpenAt(front));
      CachedStep(OpenAt(front), e);
      AskedStep(front, e);
      OpenedOnceStep(AllOps(front), e);
    }
  }

  lemma CachedSeek(f: Lookup, open: map<U32, Bytes>, e: Entry)
    requires Explained(e) && CacheOnly(e) && ServedWell(f, open, e)
    requires Conserved(e.before, open) && CacheOpen(e.before)
    ensures FoundIn(f, e)
  {
    hide Explained, ServedWell, Conserved;
    if e.cmd.SeekOn? {
      ConservedIsValid(e.before, open);
      SeekIsLookup(f, open, e);
    }
  }

  /** If the server also answers from a table, every seek of such a session returns the entry of its table. */
  lemma {:induction false} CachedSession(f: Lookup, es: seq<Entry>, c: Client)
    requires Chained(es, c) && SessionLooksUp(f, es)
    requires forall e | e in es :: CacheOnly(e)
    ensures forall e | e in es :: FoundIn(f, e)
    decreases |es|
  {
    hide CacheOpen, OpenedOnce, FoundIn, Conserved, ServedWell, Explained, CacheOnly, Asked;
    if es != [] {
      var front, e := es[..|es| - 1], es[|es| - 1];
      assert es == front + [e];
      assert e in es && forall x :: x in es <==> x in front || x == e;
      CachedSession(f, front, e.before);
      LooksUpIsLegal(f, front);
      SessionConserves(front, e.before);
      CachedOpens(front, e.before);
      CachedSeek(f, OpenAt(front), e);
    }
  }

  /** A cached seek and a one-shot seek that looks in the same table for the same key return the same pair. */
  lemma CachedRefinesOneShot(f: Lookup, es: seq<Entry>, c: Client, e: Entry, t: Bytes, o: Entry, open: map<U32, Bytes>)
    requires Chained(es, c) && SessionLooksUp(f, es) && forall e | e in es :: CacheOnly(e)
    requires e in es && e.cmd.SeekOn? && IsCached(e.before, e.cmd.ref, t)
    requires Explained(o) && o.cmd.SeekOnce? && ServedWell(f, open, o)
    requires o.before.ids[o.cmd.ref] != 0 ==> Conserved(o.before, open)
    requires OneShotTable(o) == t && o.cmd.key == e.cmd.key
    ensures e.result == o.result
  {
    CachedSession(f, es, c);
    OneShotIsLookup(f, open, o);
  }
}
