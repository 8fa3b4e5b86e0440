/**
 The refinement between the two views of a transaction: what the calls of a run have returned is a session of
 sequential code with one reply per request, so everything proved of sessions holds of runs.
 */
module KvRuns {
  import opened Options
  import opened WireFormat
  import opened KvClient
  import opened KvReactor
  import opened KvSession
  import opened KvMachine
  import opened KvGuarantees
  import C = CursorCodec
  import P = PairCodec

  // ---- Exchanges of concatenations ----

  lemma {:induction false} ExchangesConcat(ops: seq<Op>, replies: seq<P.Pair>, ops': seq<Op>, replies': seq<P.Pair>)
    requires |ops| == |replies| && |ops'| == |replies'|
    ensures Exchanges(ops + ops', replies + replies') == Exchanges(ops, replies) + Exchanges(ops', replies')
    decreases |ops'|
  {
    hide Request, Exchanges;
    if ops' == [] {
      NoExchanges();
      assert ops + ops' == ops && replies + replies' == replies;
    } else {
      var n := |ops'| - 1;
      ExchangesConcat(ops, replies, ops'[..n], replies'[..n]);
      assert ops' == ops'[..n] + [ops'[n]] && replies' == replies'[..n] + [replies'[n]];
      ExchangesLast(ops'[..n], replies'[..n], ops'[n], replies'[n]);
      ExchangesLast(ops + ops'[..n], replies + replies'[..n], ops'[n], replies'[n]);
      assert ops + ops' == ops + ops'[..n] + [ops'[n]];
      assert replies + replies' == replies + replies'[..n] + [replies'[n]];
    }
  }

  function SessionExchanges(es: seq<Entry>): seq<Exchange> {
    if es == [] then [] else SessionExchanges(es[..|es| - 1]) + EntryExchanges(es[|es| - 1])
  }

  lemma {:induction false} SessionLengths(es: seq<Entry>, c: Client)
    requires Chained(es, c)
    ensures |AllOps(es)| == |AllReplies(es)|
    ensures Exchanges(AllOps(es), AllReplies(es)) == SessionExchanges(es)
    decreases |es|
  {
    hide Request, Run, Exchanges;
    if es == [] {
      NoExchanges();
    } else {
      var front, e := es[..|es| - 1], es[|es| - 1];
      SessionLengths(front, e.before);
      ExchangesConcat(AllOps(front), AllReplies(front), e.ops, e.replies);
    }
  }

  lemma {:induction false} LooksUpConcat(f: Lookup, open: map<U32, Bytes>, xs: seq<Exchange>, ys: seq<Exchange>)
    ensures LooksUp(f, open, xs + ys) <==> LooksUp(f, open, xs) && LooksUp(f, After(open, xs), ys)
    decreases |ys|
  {
    hide SeekOk;
    if ys == [] {
      assert xs + ys == xs;
    } else {
      var front, y := ys[..|ys| - 1], ys[|ys| - 1];
      LooksUpConcat(f, open, xs, front);
      LooksUpLast(f, open, xs + front, y);
      AfterConcat(open, xs, front);
      assert xs + front + [y] == xs + ys;
    }
  }

  /** A legal history of the server, cut into the calls it served. */
  lemma {:induction false} SessionServed(es: seq<Entry>)
    requires Legal(map[], SessionExchanges(es))
    ensures After(map[], SessionExchanges(es)) == OpenAt(es) && SessionLegal(es)
    decreases |es|
  {
    hide Exchanges, EntryExchanges;
    if es != [] {
      var front, e := es[..|es| - 1], es[|es| - 1];
      AfterConcat(map[], SessionExchanges(front), EntryExchanges(e));
      SessionServed(front);
    }
  }

  lemma {:induction false} SessionLookedUp(f: Lookup, es: seq<Entry>, c: Client)
    requires Chained(es, c)
    requires Legal(map[], SessionExchanges(es)) && LooksUp(f, map[], SessionExchanges(es))
    ensures SessionLooksUp(f, es)
    decreases |es|
  {
    hide Exchanges, Run, SeekOk;
    if es != [] {
      var front, e := es[..|es| - 1], es[|es| - 1];
      AfterConcat(map[], SessionExchanges(front), EntryExchanges(e));
      LooksUpConcat(f, map[], SessionExchanges(front), EntryExchanges(e));
      SessionServed(front);
      SessionLookedUp(f, front, e.before);
    }
  }

  // ---- A run is a session ----

  /** The first `n` completed operations account for exactly the first answers of the server. */
  lemma {:induction false} CompletedExchanges(st: State, n: nat)
    requires Histories(st) && n <= |st.completions|
    requires forall k | 0 <= k < n :: !st.ops[k].Close?
    ensures n <= |st.served| && Exchanges(st.ops[..n], RepliesOf(st.completions[..n])) == st.served[..n]
    decreases n
  {
    hide Request, Legal, Exchanges;
    if n == 0 {
      NoExchanges();
      assert st.ops[..0] == [] && RepliesOf(st.completions[..0]) == [];
    } else {
      CompletedExchanges(st, n - 1);
      var op, reply := st.ops[n - 1], st.completions[n - 1].reply;
      ExchangesLast(st.ops[..n - 1], RepliesOf(st.completions[..n - 1]), op, reply);
      assert st.ops[..n] == st.ops[..n - 1] + [op];
      assert RepliesOf(st.completions[..n]) == RepliesOf(st.completions[..n - 1]) + [reply];
      assert st.served[n - 1] == Exchange(Request(op), reply);
    }
  }

  /** Between calls every operation issued is accounted for, so the server's whole history is the calls'. */
  lemma IdleExchanges(st: State)
    requires Inv(st) && st.status.Idle?
    ensures SessionExchanges(st.returned) == st.served
  {
    hide Request, Legal, Exchanges, Protocol, Balanced, Agreement, CacheJustified, AllOps, AllReplies, Chained,
        SessionExchanges;
    SessionLengths(st.returned, st.status.client);
    var n := |st.ops|;
    assert |RepliesOf(st.completions)| == n;
    assert st.ops[..n] == st.ops && st.completions[..n] == st.completions;
    if n > 0 && st.ops[n - 1].Close? {
      CompletedExchanges(st, n - 1);
      var m := n - 1;
      ExchangesLast(st.ops[..m], RepliesOf(st.completions[..m]), st.ops[m], st.completions[m].reply);
      assert st.ops == st.ops[..m] + [st.ops[m]];
      assert RepliesOf(st.completions) == RepliesOf(st.completions[..m]) + [st.completions[m].reply];
      assert |st.served| == m;
      assert st.served[..m] == st.served;
    } else {
      CompletedExchanges(st, n);
      assert |st.served| == n;
      assert st.served[..n] == st.served;
    }
  }

  /**
   Whenever no call is in progress, on any run: the calls returned what sequential code returns for their
   replies, and the server's history is exactly their exchanges, each legal.
   */
  lemma RunIsSession(run: seq<Action>, st: State)
    requires Execute(run) == Some(st) && st.status.Idle?
    ensures Chained(st.returned, st.status.client)
    ensures st.ops == AllOps(st.returned) && RepliesOf(st.completions) == AllReplies(st.returned)
    ensures SessionExchanges(st.returned) == st.served
    ensures SessionLegal(st.returned) && OpenAt(st.returned) == After(map[], st.served)
  {
    hide Execute, Protocol, Balanced, Agreement, CacheJustified, Completed, AllOps, AllReplies, Chained,
        SessionExchanges, Legal, After;
    EveryRunInv(run);
    IdleExchanges(st);
    SessionServed(st.returned);
  }

  /**
   The cached cursors on runs: if only `cursor(table)` and seeks on its cursors are called, the server got one
   OPEN for each table asked for and none for others.
   */
  lemma CachedRunOpens(run: seq<Action>, st: State)
    requires Execute(run) == Some(st) && st.status.Idle?
    requires forall e | e in st.returned :: CacheOnly(e)
    ensures forall t :: multiset(st.ops)[OpenCursor(t)] == if t in Asked(st.returned) then 1 else 0
  {
    hide Execute, CacheOnly, Asked, Chained, SessionExchanges, SessionLegal, AllOps, AllReplies, After, OpenAt;
    RunIsSession(run, st);
    CachedOpens(st.returned, st.status.client);
  }

  /** If its SEEK replies depend only on table and key, every seek returned the entry of its table. */
  lemma CachedRun(f: Lookup, run: seq<Action>, st: State)
    requires Execute(run) == Some(st) && st.status.Idle?
    requires LooksUp(f, map[], st.served)
    requires forall e | e in st.returned :: CacheOnly(e)
    ensures forall e | e in st.returned :: FoundIn(f, e)
  {
    hide Execute, CacheOnly, FoundIn, Asked, Chained, SessionExchanges, SessionLegal, SessionLooksUp, LooksUp,
         AllOps, AllReplies, Legal, After, OpenAt;
    EveryRunInv(run);
    LegalServed(st);
    RunIsSession(run, st);
    SessionLookedUp(f, st.returned, st.status.client);
    CachedSession(f, st.returned, st.status.client);
  }

  lemma LegalServed(st: State)
    requires Inv(st)
    ensures Legal(map[], st.served)
  {
  }

  // ---- close() ----

  /** Once the stream is half-closed, every operation before `Close` has been answered and completed. */
  lemma HalfCloseComesLast(run: seq<Action>, st: State)
    requires Execute(run) == Some(st) && st.rt.halfClosed
    ensures st.ops != [] && st.ops[|st.ops| - 1].Close?
    ensures |st.completions| >= |st.ops| - 1 && |st.served| == |st.ops| - 1
    ensures forall k | 0 <= k < |st.served| ::
              !st.ops[k].Close? && st.served[k] == Exchange(Request(st.ops[k]), st.completions[k].reply)
  {
    hide Execute, Protocol, Balanced, Agreement, CacheJustified, Legal, AllOps, AllReplies, Chained, Request, Run,
        Begin, CanCall;
    EveryRunInv(run);
    if st.status.Idle? {
      SessionLengths(st.returned, st.status.client);
    } else {
      SessionLengths(st.returned, st.status.call.before);
    }
    assert |RepliesOf(st.completions)| == |st.completions|;
    var n := |st.ops|;
    assert |st.completions| >= n - 1;
    forall k | 0 <= k < n - 1
      ensures !st.ops[k].Close? && k < |st.served|
      ensures st.served[k] == Exchange(Request(st.ops[k]), st.completions[k].reply)
    {
      RepliesMatch(run, st, k);
    }
    if n > 1 { assert !st.ops[n - 2].Close? && n - 2 < |st.served|; }
  }

  lemma {:induction false} CloseOpsEnd(c: Client, order: seq<Bytes>)
    ensures CloseOps(c, order) != [] && CloseOps(c, order)[|CloseOps(c, order)| - 1] == Close
  {
    if order != [] { CloseOpsEnd(c, order[1..]); }
  }

  lemma ClosedWhenLast(st: State)
    requires Inv(st) && st.ops != [] && st.ops[|st.ops| - 1].Close?
    ensures st.rt.halfClosed
  {
  }

  /**
   `close()` on any run, after whatever calls: one CLOSE for each cached cursor that is open, then the half-close;
   afterwards the cache is empty, every formerly cached cursor is at id 0 and all others are as they were.
   */
  lemma CloseOnRun(run: seq<Action>, st: State, es: seq<Entry>, last: Entry)
    requires Execute(run) == Some(st) && st.status.Idle? && st.returned == es + [last] && last.cmd.CloseTx?
    ensures st.ops == AllOps(es) + CloseOps(last.before, last.cmd.order) && st.rt.halfClosed
    ensures var c := st.status.client;
            && c.cached == map[] && c.ids.Keys == last.before.ids.Keys
            && (forall t | t in last.before.cached :: IdOf(c, last.before.cached[t]) == 0)
            && (forall r | r in c.ids && r !in last.before.cached.Values :: c.ids[r] == last.before.ids[r])
  {
    hide Execute, Legal, After, OpenAt, Conserved, Run, Inv, SessionExchanges, AllReplies, CloseOps;
    EveryRunInv(run);
    RunIsSession(run, st);
    assert st.returned[..|es|] == es;
    SessionConserves(es, last.before);
    ConservedIsValid(last.before, OpenAt(es));
    CloseClosesEverything(last);
    CloseOpsEnd(last.before, last.cmd.order);
    ClosedWhenLast(st);
  }

  /** Every open cursor object is in the cache. */
  ghost predicate AllCached(c: Client) {
    forall r | r in c.ids && c.ids[r] != 0 :: exists t :: IsCached(c, r, t)
  }

  lemma OnlyCachedStep(open: map<U32, Bytes>, e: Entry)
    requires Explained(e) && CacheOnly(e) && Legal(open, EntryExchanges(e)) && AllCached(e.before)
    ensures AllCached(e.after)
  {
    hide Explained, EntryExchanges, Legal;
    if e.cmd.GetCursor? {
      GetCursorRuns(e, open);
      forall r | r in e.after.ids && e.after.ids[r] != 0 ensures exists t :: IsCached(e.after, r, t) {
        if r in e.before.ids && e.before.ids[r] != 0 && e.after != e.before && r != e.before.next {
          var t :| IsCached(e.before, r, t);
          assert IsCached(e.after, r, t);
        } else if e.after != e.before {
          assert IsCached(e.after, r, e.cmd.table);
        }
      }
    } else {
      SeekKeepsClient(e);
    }
  }

  /** Whoever only calls `cursor(table)` and seeks has every open cursor in the cache. */
  lemma {:induction false} OnlyCachedOpen(es: seq<Entry>, c: Client)
    requires Chained(es, c) && SessionLegal(es)
    requires forall e | e in es :: CacheOnly(e)
    ensures AllCached(c)
    decreases |es|
  {
    hide Explained, CacheOnly, Legal, EntryExchanges;
    if es != [] {
      var front, e := es[..|es| - 1], es[|es| - 1];
      OnlyCachedOpen(front, e.before);
      assert e in es && CacheOnly(e);
      OnlyCachedStep(OpenAt(front), e);
    }
  }

  /** The cursor objects open after `close()` are those that were open before and not in the cache. */
  lemma OpenAfterClose(run: seq<Action>, st: State, es: seq<Entry>, last: Entry)
    requires Execute(run) == Some(st) && st.status.Idle? && st.returned == es + [last] && last.cmd.CloseTx?
    ensures OpenRefs(st.status.client) == OpenRefs(last.before) - last.before.cached.Values
    ensures OpenRefs(st.status.client) == {} <==> AllCached(last.before)
  {
    hide Execute, AllOps, CloseOps;
    CloseOnRun(run, st, es, last);
    var c, d := st.status.client, last.before;
    forall r | r in d.ids ensures r in d.cached.Values <==> exists t :: IsCached(d, r, t) {
      if r in d.cached.Values {
        var t :| t in d.cached && d.cached[t] == r;
        assert IsCached(d, r, t);
      }
    }
    forall r | r in d.ids
      ensures c.ids[r] == if r in d.cached.Values then 0 else d.ids[r]
    {
      if r in d.cached.Values {
        var t :| t in d.cached && d.cached[t] == r;
        assert IdOf(c, d.cached[t]) == 0;
      }
    }
    if OpenRefs(c) == {} {
      forall r | r in d.ids && d.ids[r] != 0 ensures exists t :: IsCached(d, r, t) {
        assert r !in OpenRefs(c);
      }
    }
  }

  /**
   `close()` on any run leaves the server without an open cursor if and only if every open cursor object was in
   the cache, which is exactly when the server then has answered as many CLOSEs as OPENs.
   */
  lemma CloseLeavesNothingOpen(run: seq<Action>, st: State, es: seq<Entry>, last: Entry)
    requires Execute(run) == Some(st) && st.status.Idle? && st.returned == es + [last] && last.cmd.CloseTx?
    ensures After(map[], st.served) == map[] <==> AllCached(last.before)
    ensures CountOp(st.served, OPEN) == CountOp(st.served, CLOSE) <==> AllCached(last.before)
  {
    hide Execute, After, CountOp, OpenRefs, AllCached;
    OpenAfterClose(run, st, es, last);
    CursorsConserved(run, st);
    var c, open := st.status.client, After(map[], st.served);
    var refs := OpenRefs(c);
    assert refs == {} <==> |refs| == 0;
    assert open == map[] <==> open.Keys == {};
    if refs != {} {
      var r :| r in refs;
      OpenRefIsOpen(c, r);
      assert c.ids[r] in IdsOf(c, refs);
    }
  }

  lemma OpenRefIsOpen(c: Client, r: nat)
    requires r in OpenRefs(c)
    ensures r in c.ids && c.ids[r] != 0
  {
  }

  /** After `cursor(table)` calls and seeks only, `close()` leaves nothing open. */
  lemma CacheOnlyLeavesNothingOpen(run: seq<Action>, st: State, es: seq<Entry>, last: Entry)
    requires Execute(run) == Some(st) && st.status.Idle? && st.returned == es + [last] && last.cmd.CloseTx?
    requires forall e | e in es :: CacheOnly(e)
    ensures After(map[], st.served) == map[]
  {
    hide Execute, After, CacheOnly, AllCached, Legal, EntryExchanges, Explained, SessionExchanges, AllOps, AllReplies;
    RunIsSession(run, st);
    assert st.returned[..|es|] == es;
    OnlyCachedOpen(es, last.before);
    CloseLeavesNothingOpen(run, st, es, last);
  }
}
