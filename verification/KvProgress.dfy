/**
 Every call ends: a measure over the awaits the coroutine still has ahead and the phase of the current operation
 goes down with each event, and some event is always possible.
 */
module KvProgress {
  import opened Options
  import opened WireFormat
  import opened KvClient
  import opened KvReactor
  import opened KvSession
  import opened KvMachine
  import C = CursorCodec
  import P = PairCodec

  /** At most this many operations are left, the current one included; for `close()`, one per remaining cursor. */
  function AwaitsLeft(pc: Pc): nat {
    match pc
    case AwaitOpen(_, _, andThen) => if andThen.SeekThenClose? then 3 else 1
    case AwaitSeek(_, closeAfter) => if closeAfter then 2 else 1
    case AwaitNext(_) => 1
    case AwaitCloseCursor(_, after) => if after.CloseRest? then |after.rest| + 2 else 1
    case AwaitClose => 1
  }

  /** Events left in the current operation. */
  function Phase(st: State): nat {
    if st.rt.writing.Some? then 4
    else if st.rt.reading.Some? then 2 + |st.inbox|
    else if st.rt.posted != [] then 1 + |st.inbox|
    else 2
  }

  function Measure(st: State): nat
    requires st.status.Busy?
  {
    5 * AwaitsLeft(st.status.pc) + Phase(st)
  }

  lemma {:induction false} CloseLoopLeft(c: Client, rest: seq<Bytes>)
    ensures CloseLoop(c, rest).Suspended? && AwaitsLeft(CloseLoop(c, rest).pc) <= |rest| + 1
    decreases |rest|
  {
    if rest != [] && !(rest[0] in c.cached && IdOf(c, c.cached[rest[0]]) != 0) { CloseLoopLeft(c, rest[1..]); }
  }

  lemma ResumeLeavesLess(c: Client, pc: Pc, reply: P.Pair)
    ensures Resume(c, pc, reply).Suspended? ==> AwaitsLeft(Resume(c, pc, reply).pc) < AwaitsLeft(pc)
  {
    if pc.AwaitCloseCursor? && pc.after.CloseRest? { CloseLoopLeft(c.(ids := c.ids[pc.ref := 0]), pc.after.rest); }
  }

  /** `close()` has at most one operation for each cached table ahead of it, and the half-close. */
  lemma CloseAwaits(c: Client, order: seq<Bytes>)
    requires Enumerates(order, c.cached)
    ensures Begin(c, CloseTx(order)).Suspended? && AwaitsLeft(Begin(c, CloseTx(order)).pc) <= |c.cached| + 1
  {
    CloseLoopLeft(c, order);
    DistinctCount(order);
    assert (set t | t in order) == c.cached.Keys;
    assert |c.cached.Keys| == |c.cached|;
  }

  lemma {:induction false} DistinctCount(order: seq<Bytes>)
    requires Distinct(order)
    ensures |set t | t in order| == |order|
  {
    if order == [] {
      assert (set t | t in order) == {};
    } else {
      DistinctCount(order[1..]);
      assert (set t | t in order) == {order[0]} + set t | t in order[1..];
    }
  }

  /** While a call is in progress, each event throws, ends the call or brings the measure down. */
  lemma EventBringsDown(st: State, a: Action)
    requires Protocol(st) && st.status.Busy? && Enabled(st, a)
    ensures var st' := Step(st, a);
            st'.rt.thrown || st'.status.Idle? || Measure(st') < Measure(st)
  {
    hide Request, After, ReplyOk, Resume, Begin, CanCall, AwaitsLeft, ServedInOrder;
    if a.IoContextRuns? && st.rt.posted[0].ok {
      ResumeLeavesLess(st.status.client, st.status.pc, st.rt.posted[0].reply);
    }
  }

  lemma {:induction false} RunPrefixExists(run: seq<Action>, n: nat)
    requires n <= |run| && Execute(run).Some?
    ensures Execute(run[..n]).Some?
    decreases |run|
  {
    hide Step, Enabled;
    if n < |run| {
      RunPrefixExists(run[..|run| - 1], n);
      assert run[..|run| - 1][..n] == run[..n];
    } else {
      assert run[..n] == run;
    }
  }

  /**
   No call goes on forever: from any reachable state with a call in progress, after as many events as the
   measure, whatever they are, the call has returned or thrown.
   */
  lemma {:induction false} CallEnds(run: seq<Action>, more: seq<Action>)
    requires Execute(run).Some? && Execute(run).value.status.Busy? && !Execute(run).value.rt.thrown
    requires Execute(run + more).Some? && |more| >= Measure(Execute(run).value)
    ensures exists i: nat :: i <= |more| && Over(run + more[..i])
    decreases |more|
  {
    hide Step, Enabled, Inv, Execute, Measure;
    var st := Execute(run).value;
    EveryRunInv(run);
    MeasurePositive(st);
    var a := more[0];
    StepOf(run, more);
    EventFromRun(run, a);
    assert run + more[..1] == run + [a];
    var st' := Execute(run + [a]).value;
    if st'.rt.thrown || st'.status.Idle? {
      assert Over(run + more[..1]);
    } else {
      assert run + more == run + [a] + more[1..];
      CallEnds(run + [a], more[1..]);
      var i: nat :| i <= |more| - 1 && Over(run + [a] + more[1..][..i]);
      assert run + [a] + more[1..][..i] == run + more[..i + 1];
    }
  }

  ghost predicate Over(run: seq<Action>) {
    Execute(run).Some? && (Execute(run).value.rt.thrown || Execute(run).value.status.Idle?)
  }

  lemma MeasurePositive(st: State)
    requires st.status.Busy?
    ensures Measure(st) > 0
  {
  }

  lemma StepOf(run: seq<Action>, more: seq<Action>)
    requires Execute(run + more).Some? && more != []
    ensures Execute(run + [more[0]]).Some?
  {
    RunPrefixExists(run + more, |run| + 1);
    assert (run + more)[..|run| + 1] == run + [more[0]];
  }

  lemma EventFromRun(run: seq<Action>, a: Action)
    requires Execute(run).Some? && Inv(Execute(run).value)
    requires Execute(run).value.status.Busy? && !Execute(run).value.rt.thrown
    requires Execute(run + [a]).Some?
    ensures var st' := Execute(run + [a]).value;
            st'.rt.thrown || st'.status.Idle? || Measure(st') < Measure(Execute(run).value)
  {
    hide Histories, CallSoFar, CacheJustified, Balanced, Agreement, Protocol, Measure, Step, Enabled;
    assert (run + [a])[..|run|] == run;
    EventBringsDown(Execute(run).value, a);
  }

  // ---- Runs without failures ----

  /** The event reports success, and the stream ends only after the half-close. */
  predicate Succeeds(st: State, a: Action) {
    match a
    case WriteEvent(ok) => ok
    case ReadEvent(ok) => ok
    case StreamEvent(ok) => ok && st.rt.halfClosed
    case _ => true
  }

  predicate FailureFree(run: seq<Action>) {
    run == [] ||
    (var front := run[..|run| - 1];
     FailureFree(front) && (Execute(front).Some? ==> Succeeds(Execute(front).value, run[|run| - 1])))
  }

  predicate Unharmed(rt: Runtime) {
    !rt.thrown && forall w | w in rt.posted :: w.ok
  }

  lemma SuccessHarmsNothing(st: State, a: Action)
    requires Inv(st) && Enabled(st, a) && Succeeds(st, a) && Unharmed(st.rt)
    ensures Unharmed(Step(st, a).rt)
  {
    hide Histories, CallSoFar, CacheJustified, Balanced, Agreement, Request, After, ReplyOk, Resume, Begin, CanCall;
  }

  /** Without failures no callback throws. */
  lemma {:induction false} NeverThrows(run: seq<Action>)
    requires FailureFree(run) && Execute(run).Some?
    ensures Unharmed(Execute(run).value.rt)
    decreases |run|
  {
    hide Inv, Step, Enabled, Succeeds, Unharmed;
    if run == [] {
      FreshUnharmed();
    } else {
      NeverThrows(run[..|run| - 1]);
      EveryRunInv(run[..|run| - 1]);
      SuccessHarmsNothing(Execute(run[..|run| - 1]).value, run[|run| - 1]);
    }
  }

  lemma FreshUnharmed()
    ensures Unharmed(FRESH)
  {
  }

  /** The one thing a failure-free run can wait for in vain: a server without a free id has an OPEN to answer. */
  ghost predicate CanAnswer(st: State) {
    st.status.Busy? && st.status.op.OpenCursor? && st.inbox != [] ==>
      exists id: U32 :: id != 0 && id !in After(map[], st.served)
  }

  lemma SuccessPossible(st: State)
    requires Protocol(st) && st.status.Busy? && Unharmed(st.rt) && CanAnswer(st)
    ensures exists a :: Enabled(st, a) && Succeeds(st, a)
  {
    hide After;
    var id: U32 := 1;
    if st.status.op.OpenCursor? && st.inbox != [] {
      id :| id != 0 && id !in After(map[], st.served);
    }
    var a := if st.rt.writing.Some? then WriteEvent(true)
             else if st.rt.reading.Some? then
               if st.inbox == [] then ReadEvent(true) else ServerAnswers(P.EMPTY.(cursorId := id))
             else if st.rt.posted != [] then IoContextRuns
             else StreamEvent(true);
    assert Enabled(st, a) && Succeeds(st, a);
  }

  lemma SuccessImpossible(st: State, a: Action)
    requires Protocol(st) && st.status.Busy? && Unharmed(st.rt) && !CanAnswer(st) && Enabled(st, a)
    ensures !Succeeds(st, a)
  {
    hide After;
  }

  /**
   No deadlock: after a failure-free run that is inside a call some successful event is possible, if and only if
   the server does not have an OPEN before it and no id left.
   */
  lemma NoDeadlock(run: seq<Action>, st: State)
    requires FailureFree(run) && Execute(run) == Some(st) && st.status.Busy?
    ensures (exists a :: Enabled(st, a) && FailureFree(run + [a])) <==> CanAnswer(st)
  {
    hide Histories, CallSoFar, CacheJustified, Balanced, Agreement, Protocol, Execute, Enabled, Succeeds, CanAnswer;
    EveryRunInv(run);
    NeverThrows(run);
    forall a ensures (run + [a])[..|run|] == run && (run + [a])[|run|] == a {}
    if CanAnswer(st) {
      SuccessPossible(st);
      var a :| Enabled(st, a) && Succeeds(st, a);
      assert FailureFree(run + [a]);
    } else {
      forall a | Enabled(st, a) ensures !FailureFree(run + [a]) { SuccessImpossible(st, a); }
    }
  }

  // ---- Each call returns ----

  /** If the current operation is an OPEN that is not yet answered, the server has an id for it. */
  ghost predicate IdsLast(st: State) {
    st.status.Busy? && st.status.op.OpenCursor? && |st.served| == |st.completions| ==>
      exists id: U32 :: id != 0 && id !in After(map[], st.served)
  }

  /** A call opens a cursor with its first operation or not at all. */
  lemma ResumeNeverOpens(c: Client, pc: Pc, reply: P.Pair)
    ensures Resume(c, pc, reply).Suspended? ==> !Resume(c, pc, reply).op.OpenCursor?
  {
    if pc.AwaitCloseCursor? && pc.after.CloseRest? {
      LoopNeverOpens(c.(ids := c.ids[pc.ref := 0]), pc.after.rest);
    }
  }

  lemma {:induction false} LoopNeverOpens(c: Client, rest: seq<Bytes>)
    ensures CloseLoop(c, rest).Suspended? && !CloseLoop(c, rest).op.OpenCursor?
    decreases |rest|
  {
    if rest != [] && !(rest[0] in c.cached && IdOf(c, c.cached[rest[0]]) != 0) { LoopNeverOpens(c, rest[1..]); }
  }

  lemma IdsKeepLasting(st: State, a: Action)
    requires Protocol(st) && st.status.Busy? && Enabled(st, a) && IdsLast(st)
    ensures IdsLast(Step(st, a))
  {
    hide Request, After, ReplyOk, Resume, Begin, CanCall;
    if a.IoContextRuns? { ResumeNeverOpens(st.status.client, st.status.pc, st.rt.posted[0].reply); }
  }

  lemma IdsLastNow(st: State)
    requires Protocol(st) && st.status.Busy? && IdsLast(st)
    ensures CanAnswer(st)
  {
    hide Request, After;
  }

  /** One successful event more. */
  lemma OneSuccess(run: seq<Action>, st: State) returns (a: Action)
    requires FailureFree(run) && Execute(run) == Some(st) && st.status.Busy? && IdsLast(st)
    ensures FailureFree(run + [a]) && Execute(run + [a]).Some? && !Execute(run + [a]).value.rt.thrown
    ensures var st' := Execute(run + [a]).value;
            IdsLast(st') && (st'.status.Busy? ==> Measure(st') < Measure(st))
  {
    hide Histories, CallSoFar, CacheJustified, Balanced, Agreement, Protocol, Enabled, Succeeds, CanAnswer, IdsLast,
         Measure, Step;
    EveryRunInv(run);
    NeverThrows(run);
    IdsLastNow(st);
    SuccessPossible(st);
    a :| Enabled(st, a) && Succeeds(st, a);
    assert (run + [a])[..|run|] == run && (run + [a])[|run|] == a;
    IdsKeepLasting(st, a);
    NeverThrows(run + [a]);
    EventBringsDown(st, a);
  }

  /**
   Each call returns: every failure-free run that is inside a call, with an id left if it still has an OPEN to
   answer, goes on to a failure-free run in which the call has returned.
   */
  lemma {:induction false} CallReturns(run: seq<Action>, st: State)
    requires FailureFree(run) && Execute(run) == Some(st) && st.status.Busy? && IdsLast(st)
    ensures exists more :: FailureFree(run + more) && Execute(run + more).Some?
                           && Execute(run + more).value.status.Idle? && !Execute(run + more).value.rt.thrown
    decreases Measure(st)
  {
    hide Execute, FailureFree, IdsLast, Measure;
    var a := OneSuccess(run, st);
    var st' := Execute(run + [a]).value;
    if st'.status.Busy? {
      CallReturns(run + [a], st');
      var more :| FailureFree(run + [a] + more) && Execute(run + [a] + more).Some?
                  && Execute(run + [a] + more).value.status.Idle? && !Execute(run + [a] + more).value.rt.thrown;
      assert run + [a] + more == run + ([a] + more);
    }
  }

  lemma {:induction false} FailureFreePrefix(run: seq<Action>, n: nat)
    requires n <= |run| && FailureFree(run)
    ensures FailureFree(run[..n])
    decreases |run|
  {
    hide Execute, Succeeds;
    if n < |run| {
      FailureFreePrefix(run[..|run| - 1], n);
      assert run[..|run| - 1][..n] == run[..n];
    } else {
      assert run[..n] == run;
    }
  }

  /** And it does so whichever successful events come: after as many as the measure the call has returned. */
  lemma CallHasReturned(run: seq<Action>, more: seq<Action>)
    requires FailureFree(run + more) && Execute(run + more).Some?
    requires Execute(run).Some? && Execute(run).value.status.Busy? && |more| >= Measure(Execute(run).value)
    ensures exists i: nat :: 
              i <= |more| && Execute(run + more[..i]).Some? && Execute(run + more[..i]).value.status.Idle?
  {
    hide Execute, FailureFree, Measure;
    FailureFreePrefix(run + more, |run|);
    assert (run + more)[..|run|] == run;
    NeverThrows(run);
    CallEnds(run, more);
    var i: nat :| i <= |more| && Over(run + more[..i]);
    FailureFreePrefix(run + more, |run| + i);
    assert (run + more)[..|run| + i] == run + more[..i];
    NeverThrows(run + more[..i]);
  }
}
