/**
 What the invariant gives for every run of the transaction, in the terms a caller or the server sees.
 */
module KvGuarantees {
  import opened Options
  import opened WireFormat
  import opened KvClient
  import opened KvReactor
  import opened KvSession
  import opened KvMachine
  import C = CursorCodec
  import P = PairCodec

  // ---- One operation at a time ----

  /**
   In every reachable state at most one read or write is outstanding; it belongs to the latest operation, and the
   slot its event will call is that operation's own.
   */
  lemma OneAtATime(run: seq<Action>, st: State)
    requires Execute(run) == Some(st)
    ensures st.rt.writing.Some? ==> st.rt.reading.None? && st.rt.posted == []
    ensures st.rt.writing.Some? ==> st.rt.writeSlot == st.rt.writing == Some(|st.ops| - 1)
    ensures st.rt.reading.Some? ==> st.rt.posted == [] && st.rt.readSlot == st.rt.reading == Some(|st.ops| - 1)
    ensures |st.rt.posted| <= 1 && forall w | w in st.rt.posted :: w.op == |st.ops| - 1
  {
    EveryRunInv(run);
    hide Histories, CallSoFar, CacheJustified, Balanced, Agreement, Protocol;
  }

  // ---- Reply matching ----

  /** The k-th completed request gets the server's reply to the k-th request, and each operation completes once. */
  lemma RepliesMatch(run: seq<Action>, st: State, k: nat)
    requires Execute(run) == Some(st) && k < |st.completions|
    ensures k < |st.ops| && st.completions[k].op == k
    ensures !st.ops[k].Close? ==>
              k < |st.served| && st.served[k] == Exchange(Request(st.ops[k]), st.completions[k].reply)
  {
    EveryRunInv(run);
    hide Request, Legal, CallSoFar, CacheJustified, Balanced, Agreement, Protocol;
  }

  /** No operation completes twice. */
  lemma CompletedOnce(run: seq<Action>, st: State, i: nat, j: nat)
    requires Execute(run) == Some(st) && i < j < |st.completions|
    ensures st.completions[i].op != st.completions[j].op
  {
    RepliesMatch(run, st, i);
    RepliesMatch(run, st, j);
  }

  // ---- No false success ----

  ghost predicate WroteAt(run: seq<Action>, i: nat, k: nat) {
    i < |run| && run[i] == WriteEvent(true) && Execute(run[..i]).Some? && Execute(run[..i]).value.rt.writing == Some(k)
  }

  ghost predicate ReadAt(run: seq<Action>, i: nat, k: nat) {
    i < |run| && run[i] == ReadEvent(true) && Execute(run[..i]).Some? && Execute(run[..i]).value.rt.reading == Some(k)
  }

  ghost predicate DoneAt(run: seq<Action>, i: nat, k: nat) {
    && i < |run| && run[i] == StreamEvent(true)
    && Execute(run[..i]).Some? && Execute(run[..i]).value.rt.closeSlot == Some(k)
  }

  ghost predicate Recorded(run: seq<Action>, st: State) {
    && (forall k | k in st.writeOk :: exists i: nat :: WroteAt(run, i, k))
    && (forall k | k in st.readOk :: exists i: nat :: ReadAt(run, i, k))
    && (forall k | k in st.doneOk :: exists i: nat :: DoneAt(run, i, k))
  }

  lemma LaterRun(run: seq<Action>, a: Action)
    ensures forall i: nat, k: nat | WroteAt(run, i, k) :: WroteAt(run + [a], i, k)
    ensures forall i: nat, k: nat | ReadAt(run, i, k) :: ReadAt(run + [a], i, k)
    ensures forall i: nat, k: nat | DoneAt(run, i, k) :: DoneAt(run + [a], i, k)
  {
    hide Execute;
    forall i: nat | i < |run| ensures (run + [a])[..i] == run[..i] {}
  }

  /** What the step `a` adds to the record of events that were ok. */
  lemma NextRecords(st: State, a: Action)
    requires Enabled(st, a)
    ensures forall k | k in Step(st, a).writeOk ::
              k in st.writeOk || (a == WriteEvent(true) && st.rt.writing == Some(k))
    ensures forall k | k in Step(st, a).readOk :: k in st.readOk || (a == ReadEvent(true) && st.rt.reading == Some(k))
    ensures forall k | k in Step(st, a).doneOk ::
              k in st.doneOk || (a == StreamEvent(true) && st.rt.closeSlot == Some(k))
  {
    hide After, ReplyOk, CanCall, Begin, Resume;
  }

  lemma {:induction false} EventsAreRecorded(run: seq<Action>, st: State)
    requires Execute(run) == Some(st)
    ensures Recorded(run, st)
    decreases |run|
  {
    if run != [] {
      var n := |run| - 1;
      var front, a := run[..n], run[n];
      var before := Execute(front).value;
      EventsAreRecorded(front, before);
      assert run == front + [a];
      LaterRun(front, a);
      hide Step, Enabled, Execute;
      NextRecords(before, a);
      assert a == WriteEvent(true) ==> forall k | before.rt.writing == Some(k) :: WroteAt(run, n, k);
      assert a == ReadEvent(true) ==> forall k | before.rt.reading == Some(k) :: ReadAt(run, n, k);
      assert a == StreamEvent(true) ==> forall k | before.rt.closeSlot == Some(k) :: DoneAt(run, n, k);
    }
  }

  /** A read is outstanding only after the write of the same operation was ok. */
  lemma ReadFollowsWrite(st: State)
    requires Inv(st) && !st.rt.thrown && st.rt.reading.Some?
    ensures st.rt.reading.value in st.writeOk
  {
    hide Histories, CallSoFar, CacheJustified, Balanced, Agreement, Request;
  }

  /** Each ok read event has the ok write event of the same operation before it. */
  lemma ReadWasWritten(run: seq<Action>, j: nat, k: nat)
    requires Execute(run).Some? && ReadAt(run, j, k)
    ensures exists i: nat :: i < j && WroteAt(run, i, k)
  {
    hide Inv, Step, Enabled, Execute;
    var before := Execute(run[..j]).value;
    EveryRunInv(run[..j]);
    EventsAreRecorded(run[..j], before);
    TakenWasEnabled(run, j);
    EnabledNotThrown(before, run[j]);
    ReadFollowsWrite(before);
    var i: nat :| WroteAt(run[..j], i, k);
    assert run[..j][..i] == run[..i];
    assert i < j && WroteAt(run, i, k);
  }

  lemma EnabledNotThrown(st: State, a: Action)
    requires Enabled(st, a)
    ensures !st.rt.thrown
  {
  }

  lemma CompletedEvents(st: State, k: nat)
    requires Inv(st) && k < |st.completions|
    ensures k < |st.ops|
    ensures if st.ops[k].Close? then k in st.doneOk else k in st.readOk
  {
    hide Request, Legal, CallSoFar, CacheJustified, Balanced, Agreement, Protocol;
  }

  /**
   An operation completes only after its own write and then its own read, or for close() the end of the stream,
   were reported ok.
   */
  lemma NoFalseSuccess(run: seq<Action>, st: State, k: nat)
    requires Execute(run) == Some(st) && k < |st.completions|
    ensures k < |st.ops|
    ensures if st.ops[k].Close? then exists i: nat :: DoneAt(run, i, k)
            else exists i: nat, j: nat :: i < j && WroteAt(run, i, k) && ReadAt(run, j, k)
  {
    hide Inv, Execute, WroteAt, ReadAt, DoneAt;
    EveryRunInv(run);
    CompletedEvents(st, k);
    EventsAreRecorded(run, st);
    if !st.ops[k].Close? {
      var j: nat :| ReadAt(run, j, k);
      ReadWasWritten(run, j, k);
      var i: nat :| i < j && WroteAt(run, i, k);
    }
  }

  /** An action of a run was possible where it was taken. */
  lemma {:induction false} TakenWasEnabled(run: seq<Action>, j: nat)
    requires Execute(run).Some? && j < |run|
    ensures Execute(run[..j]).Some? && Enabled(Execute(run[..j]).value, run[j])
    decreases |run|
  {
    hide Step, Enabled;
    if j < |run| - 1 {
      TakenWasEnabled(run[..|run| - 1], j);
      assert run[..|run| - 1][..j] == run[..j];
    }
  }

  /** A table is in `cursors_` only after an OPEN of it was written, answered and read. */
  lemma CachedWasOpened(run: seq<Action>, st: State, t: Bytes)
    requires Execute(run) == Some(st) && t in st.status.client.cached
    ensures exists k: nat, i: nat, j: nat ::
              k < |st.completions| && k < |st.ops| && st.ops[k] == OpenCursor(t)
              && i < j && WroteAt(run, i, k) && ReadAt(run, j, k)
  {
    EveryRunInv(run);
    hide Request, Legal, CallSoFar, Balanced, Agreement, Protocol, WroteAt, ReadAt;
    var n := |st.completions|;
    assert n <= |st.ops|;
    assert OpenCursor(t) in st.ops[..n];
    var k :| 0 <= k < n && st.ops[k] == OpenCursor(t);
    NoFalseSuccess(run, st, k);
  }

  // ---- Conservation of cursors ----

  function OpenRefs(c: Client): set<nat> {
    set r | r in c.ids && c.ids[r] != 0
  }

  function IdsOf(c: Client, refs: set<nat>): set<U32> {
    set r | r in refs && r in c.ids :: c.ids[r]
  }

  lemma {:induction false} DistinctIds(c: Client, refs: set<nat>)
    requires forall r | r in refs :: r in c.ids
    requires forall r, q | r in refs && q in refs && r != q :: c.ids[r] != c.ids[q]
    ensures |IdsOf(c, refs)| == |refs|
    decreases |refs|
  {
    if refs != {} {
      var r :| r in refs;
      var rest := refs - {r};
      DistinctIds(c, rest);
      assert IdsOf(c, refs) == IdsOf(c, rest) + {c.ids[r]};
      assert c.ids[r] !in IdsOf(c, rest);
    }
  }

  /**
   Between operations the nonzero ids of the cursor objects are distinct and are exactly the cursors the server
   has open, so answered OPENs minus answered CLOSEs is the number of open cursor objects.
   */
  lemma CursorsConserved(run: seq<Action>, st: State)
    requires Execute(run) == Some(st) && st.status.Idle?
    ensures var c := st.status.client;
            && (forall r, q | r in OpenRefs(c) && q in OpenRefs(c) && r != q :: c.ids[r] != c.ids[q])
            && IdsOf(c, OpenRefs(c)) == After(map[], st.served).Keys
            && CountOp(st.served, OPEN) - CountOp(st.served, CLOSE) == |OpenRefs(c)|
  {
    EveryRunInv(run);
    hide Histories, CallSoFar, CacheJustified, Protocol, After, CountOp;
    var c := st.status.client;
    assert st.served[..|st.served|] == st.served;
    DistinctIds(c, OpenRefs(c));
    var open := After(map[], st.served);
    forall id | id in open ensures id in IdsOf(c, OpenRefs(c)) {
      var r :| r in c.ids && c.ids[r] == id;
      assert r in OpenRefs(c);
    }
    assert IdsOf(c, OpenRefs(c)) == open.Keys;
    assert |open| == |open.Keys|;
  }
}
