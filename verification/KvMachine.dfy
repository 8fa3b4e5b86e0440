/**
 The whole transaction as a step relation: one client coroutine, the reactor, the posted-work queue and a
 server that may answer anything legal.  Every event is one atomic step and may fail.
 */
module KvMachine {
  import opened Options
  import opened WireFormat
  import opened KvClient
  import opened KvReactor
  import opened KvSession
  import C = CursorCodec
  import P = PairCodec

  /** A call in progress: where it began, and its operations and replies so far. */
  datatype Call = Call(before: Client, cmd: Command, ops: seq<Op>, replies: seq<P.Pair>)

  datatype Status = Idle(client: Client) | Busy(call: Call, client: Client, pc: Pc, op: Op)

  datatype Completion = Completion(op: nat, reply: P.Pair)

  /**
   `ops` are the operations initiated so far, `completions` the calls of `complete` in order.  `inbox` is what
   was written and not yet seen by the server, `replies` what it sent and was not yet read, `served` all it
   ever answered.  `writeOk`, `readOk` and `doneOk` record which operations' own events were ok; `returned`
   holds the finished calls.
   */
  datatype State = State(
    status: Status, rt: Runtime, ops: seq<Op>, completions: seq<Completion>,
    inbox: seq<C.Cursor>, replies: seq<P.Pair>, served: seq<Exchange>,
    writeOk: set<nat>, readOk: set<nat>, doneOk: set<nat>, returned: seq<Entry>)

  const INIT: State := State(Idle(NO_CURSORS), FRESH, [], [], [], [], [], {}, {}, {}, [])

  datatype Action =
    | Invoke(cmd: Command)
    | WriteEvent(ok: bool)
    | ServerAnswers(reply: P.Pair)
    | ReadEvent(ok: bool)
    | StreamEvent(ok: bool)
    | IoContextRuns

  /** When an action can happen: the hypotheses on the environment and on the caller. */
  predicate Enabled(st: State, a: Action) {
    !st.rt.thrown &&
    match a
    // One call at a time, none after close().
    case Invoke(cmd) => st.status.Idle? && !st.rt.halfClosed && CanCall(st.status.client, cmd)
    // Each started operation gets one done event.
    case WriteEvent(ok) => st.rt.writing.Some?
    // First come, first served, one reply for each request.
    case ServerAnswers(reply) => st.inbox != [] && ReplyOk(After(map[], st.served), Exchange(st.inbox[0], reply))
    case ReadEvent(ok) => st.rt.reading.Some? && (ok ==> st.replies != [])
    // The stream ends once, after all started reads and writes.
    case StreamEvent(ok) => !st.rt.finished && st.rt.writing.None? && st.rt.reading.None?
    case IoContextRuns => st.rt.posted != []
  }

  /** The message operation `id` handed to `StartWrite`. */
  function MessageOf(st: State, id: nat): C.Cursor {
    if id < |st.ops| && !st.ops[id].Close? then Request(st.ops[id]) else C.EMPTY
  }

  /** The call goes on as `p` says: it initiates its next operation, or it has returned. */
  function Advance(st: State, call: Call, p: Progress): State {
    match p
    case Returned(c, result) =>
      var e := Entry(call.before, call.cmd, call.ops, call.replies, c, result);
      st.(status := Idle(c), returned := st.returned + [e])
    case Suspended(c, pc, op) =>
      st.(status := Busy(call.(ops := call.ops + [op]), c, pc, op),
          rt := StartOp(st.rt, |st.ops|, op.Close?),
          ops := st.ops + [op])
  }

  function Step(st: State, a: Action): State
    requires Enabled(st, a)
  {
    match a
    case Invoke(cmd) => Advance(st, Call(st.status.client, cmd, [], []), Begin(st.status.client, cmd))
    case WriteEvent(ok) =>
      var w := st.rt.writing.value;
      var st' := st.(rt := WriteDone(st.rt, ok));
      if ok then st'.(inbox := st.inbox + [MessageOf(st, w)], writeOk := st.writeOk + {w}) else st'
    case ServerAnswers(reply) =>
      st.(inbox := st.inbox[1..], replies := st.replies + [reply], served := st.served + [Exchange(st.inbox[0], reply)])
    case ReadEvent(ok) =>
      if ok then
        st.(rt := ReadDone(st.rt, true, st.replies[0]), replies := st.replies[1..],
            readOk := st.readOk + {st.rt.reading.value})
      else st.(rt := ReadDone(st.rt, false, P.EMPTY))
    case StreamEvent(ok) =>
      var st' := st.(rt := StreamDone(st.rt, ok));
      if ok && st.rt.closeSlot.Some? then st'.(doneOk := st.doneOk + {st.rt.closeSlot.value}) else st'
    case IoContextRuns =>
      var work := st.rt.posted[0];
      var st' := st.(rt := TakeWork(st.rt));
      if !work.ok || st.status.Idle? then st'
      else
        var done := st'.(completions := st.completions + [Completion(work.op, work.reply)]);
        Advance(done, st.status.call.(replies := st.status.call.replies + [work.reply]),
                Resume(st.status.client, st.status.pc, work.reply))
  }

  /** The state after the actions `run`, if each was possible in turn. */
  function Execute(run: seq<Action>): Option<State> {
    if run == [] then Some(INIT)
    else match Execute(run[..|run| - 1])
      case None => None
      case Some(st) => if Enabled(st, run[|run| - 1]) then Some(Step(st, run[|run| - 1])) else None
  }

  // ---- The invariant ----

  /** The server answered the requests in the order they were issued, each legally. */
  ghost predicate ServedInOrder(ops: seq<Op>, served: seq<Exchange>) {
    && |served| <= |ops|
    && (forall i | 0 <= i < |served| :: !ops[i].Close? && served[i].req == Request(ops[i]))
    && Legal(map[], served)
  }

  /** The k-th completion is that of operation k; its own events were ok and its reply is the k-th answer. */
  ghost predicate Completed(
    ops: seq<Op>, completions: seq<Completion>, served: seq<Exchange>,
    writeOk: set<nat>, readOk: set<nat>, doneOk: set<nat>)
  {
    && |completions| <= |ops|
    && (forall k | 0 <= k < |completions| ::
          && completions[k].op == k
          && (if ops[k].Close? then k in doneOk
              else k in writeOk && k in readOk && k < |served| && completions[k].reply == served[k].reply))
  }

  ghost predicate Histories(st: State) {
    ServedInOrder(st.ops, st.served) && Completed(st.ops, st.completions, st.served, st.writeOk, st.readOk, st.doneOk)
  }

  function RepliesOf(cs: seq<Completion>): seq<P.Pair> {
    seq(|cs|, i requires 0 <= i < |cs| => cs[i].reply)
  }

  /** The finished calls and the current one account for all operations and all replies. */
  ghost predicate CallSoFar(status: Status, ops: seq<Op>, completions: seq<Completion>, returned: seq<Entry>) {
    match status
    case Idle(c) =>
      && ops == AllOps(returned) && RepliesOf(completions) == AllReplies(returned)
      && Chained(returned, c)
    case Busy(call, c, pc, op) =>
      && ops == AllOps(returned) + call.ops && RepliesOf(completions) == AllReplies(returned) + call.replies
      && |call.ops| == |call.replies| + 1
      && CanCall(call.before, call.cmd)
      && Run(Begin(call.before, call.cmd), call.replies) == Ran(Suspended(c, pc, op), call.ops)
      && Chained(returned, call.before)
  }

  /** A table is cached only if an OPEN for it was completed. */
  ghost predicate CacheJustified(c: Client, ops: seq<Op>, done: nat) {
    forall t | t in c.cached :: OpenCursor(t) in ops[..if done <= |ops| then done else |ops|]
  }

  /** Every CLOSE answered was of an open cursor. */
  ghost predicate Balanced(served: seq<Exchange>) {
    |After(map[], served)| + CountOp(served, CLOSE) == CountOp(served, OPEN)
  }

  /** Client ids and server cursors correspond, up to the exchange in progress. */
  ghost predicate Agreement(status: Status, served: seq<Exchange>, done: nat) {
    && done <= |served|
    && Conserved(status.client, After(map[], served[..done]))
    && (status.Busy? ==> Waits(status.client, status.pc, status.op))
  }

  /** No operation but the last is `Close`. */
  predicate CloseIsLast(ops: seq<Op>) {
    forall i | 0 <= i < |ops| - 1 :: !ops[i].Close?
  }

  /** No event is outstanding and nothing is queued. */
  predicate Quiet(st: State) {
    && st.rt.writing.None? && st.rt.reading.None? && st.rt.posted == []
    && st.inbox == [] && st.replies == []
  }

  ghost predicate Writing(st: State, cur: nat) {
    && st.rt.writing == Some(cur) && st.rt.writeSlot == Some(cur) && st.rt.reading.None? && st.rt.posted == []
    && st.inbox == [] && st.replies == [] && |st.served| == cur
  }

  ghost predicate Reading(st: State, cur: nat, req: C.Cursor) {
    && st.rt.writing.None? && st.rt.reading == Some(cur) && st.rt.readSlot == Some(cur) && st.rt.posted == []
    && cur in st.writeOk
    && (if st.inbox == []
        then |st.served| == cur + 1 && st.replies == [st.served[cur].reply]
        else st.inbox == [req] && st.replies == [] && |st.served| == cur)
  }

  ghost predicate Posted(st: State, cur: nat, req: C.Cursor) {
    && st.rt.writing.None? && st.rt.reading.None? && |st.rt.posted| == 1 && st.rt.posted[0].op == cur
    && (if st.inbox == [] then |st.served| == cur + 1 else st.inbox == [req] && |st.served| == cur)
    && (st.rt.posted[0].ok ==>
          && cur in st.writeOk && cur in st.readOk && st.inbox == [] && st.replies == []
          && st.rt.posted[0].reply == st.served[cur].reply)
  }

  /** The close operation: half-closed, then the end of the stream is posted. */
  ghost predicate Closing(st: State, cur: nat) {
    && st.rt.halfClosed && st.rt.closeSlot == Some(cur)
    && st.rt.writing.None? && st.rt.reading.None? && st.inbox == [] && st.replies == []
    && |st.served| == cur
    && (if st.rt.finished
        then |st.rt.posted| == 1 && st.rt.posted[0].op == cur && (st.rt.posted[0].ok ==> cur in st.doneOk)
        else st.rt.posted == [])
  }

  /** Where the current operation is: exactly one event or posted completion carries it on. */
  ghost predicate Protocol(st: State) {
    && (st.rt.finished ==> st.rt.halfClosed)
    && (st.rt.closeSlot.Some? <==> st.rt.halfClosed)
    && match st.status
       case Idle(_) =>
         && Quiet(st)
         && |st.completions| == |st.ops|
         && (st.rt.halfClosed ==> st.rt.finished)
         && |st.served| == if st.rt.halfClosed then |st.ops| - 1 else |st.ops|
       case Busy(_, _, _, op) =>
         && st.ops != [] && st.ops[|st.ops| - 1] == op
         && |st.completions| == |st.ops| - 1
         && (var cur := |st.ops| - 1;
             if op.Close? then Closing(st, cur)
             else
               && !st.rt.halfClosed
               && (Writing(st, cur) || Reading(st, cur, Request(op)) || Posted(st, cur, Request(op))))
  }

  /** The requests answered before the current operation. */
  function Settled(st: State): nat {
    if st.status.Idle? then |st.served| else |st.completions|
  }

  /** One event at a time; it calls the slot of the operation that started it, which is the latest one. */
  ghost predicate Single(rt: Runtime, cur: int) {
    && (rt.writing.Some? ==>
          rt.reading.None? && rt.posted == [] && rt.writeSlot == rt.writing && rt.writing.value == cur)
    && (rt.reading.Some? ==> rt.posted == [] && rt.readSlot == rt.reading && rt.reading.value == cur)
    && |rt.posted| <= 1
    && (forall i | 0 <= i < |rt.posted| :: rt.posted[i].op == cur)
  }

  /** What was written and not yet answered are the requests that follow the answered ones. */
  ghost predicate InboxInOrder(ops: seq<Op>, inbox: seq<C.Cursor>, answered: nat) {
    && answered + |inbox| <= |ops|
    && forall i | 0 <= i < |inbox| :: !ops[answered + i].Close? && inbox[i] == Request(ops[answered + i])
  }

  ghost predicate Inv(st: State) {
    && Histories(st)
    && InboxInOrder(st.ops, st.inbox, |st.served|)
    && CallSoFar(st.status, st.ops, st.completions, st.returned)
    && CacheJustified(st.status.client, st.ops, |st.completions|)
    && Balanced(st.served)
    && Agreement(st.status, st.served, Settled(st))
    && Single(st.rt, |st.ops| - 1)
    && CloseIsLast(st.ops)
    && (st.rt.halfClosed <==> st.ops != [] && st.ops[|st.ops| - 1].Close?)
    && (!st.rt.thrown ==> Protocol(st))
  }

  // ---- Every step keeps it ----

  lemma WriteEventKeeps(st: State, ok: bool)
    requires Inv(st) && Enabled(st, WriteEvent(ok))
    ensures Inv(Step(st, WriteEvent(ok)))
  {
    hide ServedInOrder, CallSoFar, CacheJustified, Balanced, Agreement;
  }

  lemma ReadEventKeeps(st: State, ok: bool)
    requires Inv(st) && Enabled(st, ReadEvent(ok))
    ensures Inv(Step(st, ReadEvent(ok)))
  {
    hide ServedInOrder, CallSoFar, CacheJustified, Balanced, Agreement, Request;
  }

  lemma StreamEventKeeps(st: State, ok: bool)
    requires Inv(st) && Enabled(st, StreamEvent(ok))
    ensures Inv(Step(st, StreamEvent(ok)))
  {
    hide ServedInOrder, CallSoFar, CacheJustified, Balanced, Agreement, Request;
  }

  lemma ServedNext(ops: seq<Op>, served: seq<Exchange>, x: Exchange)
    requires ServedInOrder(ops, served) && |served| < |ops| && !ops[|served|].Close?
    requires x.req == Request(ops[|served|]) && ReplyOk(After(map[], served), x)
    ensures ServedInOrder(ops, served + [x])
  {
    hide Request, Legal, After, ReplyOk;
    AfterLast(map[], served, x);
  }

  lemma OpensAndCloses(open: map<U32, Bytes>, x: Exchange)
    requires ReplyOk(open, x) && (x.req.op == CLOSE ==> x.req.cursor in open)
    ensures |ServerNext(open, x)| ==
            |open| + (if x.req.op == OPEN then 1 else 0) - (if x.req.op == CLOSE then 1 else 0)
  {
    if x.req.op == CLOSE {
      assert (open - {x.req.cursor}).Keys == open.Keys - {x.req.cursor};
      assert |open.Keys| == |open|;
    }
  }

  /** A CLOSE in progress names a cursor the server holds. */
  lemma ClosesAnOpenCursor(c: Client, pc: Pc, op: Op, open: map<U32, Bytes>)
    requires Conserved(c, open) && Waits(c, pc, op) && !op.Close? && Request(op).op == CLOSE
    ensures Request(op).cursor in open
  {
    assert op.CloseCursor?;
  }

  lemma BalancedNext(status: Status, served: seq<Exchange>, x: Exchange)
    requires Balanced(served) && status.Busy? && Agreement(status, served, |served|)
    requires !status.op.Close? && x.req == Request(status.op) && ReplyOk(After(map[], served), x)
    ensures Balanced(served + [x])
  {
    hide Conserved, Waits, Request, ReplyOk, ServerNext, After, CountOp;
    assert served[..|served|] == served;
    var open := After(map[], served);
    if x.req.op == CLOSE { ClosesAnOpenCursor(status.client, status.pc, status.op, open); }
    OpensAndCloses(open, x);
    AfterLast(map[], served, x);
    CountOpLast(served, x, OPEN);
    CountOpLast(served, x, CLOSE);
  }

  /** What the server has not answered is the request of the current operation. */
  lemma InboxIsCurrent(st: State)
    requires Protocol(st) && st.inbox != []
    ensures st.status.Busy? && !st.status.op.Close? && st.inbox == [Request(st.status.op)]
    ensures |st.served| == |st.completions| == |st.ops| - 1 && st.ops[|st.ops| - 1] == st.status.op
  {
    hide Request;
  }

  lemma AnswerKeepsProtocol(st: State, reply: P.Pair)
    requires Protocol(st) && Enabled(st, ServerAnswers(reply))
    ensures Protocol(Step(st, ServerAnswers(reply)))
  {
    hide Request, ReplyOk, After;
  }

  lemma ServerAnswersKeeps(st: State, reply: P.Pair)
    requires Inv(st) && Enabled(st, ServerAnswers(reply))
    ensures Inv(Step(st, ServerAnswers(reply)))
  {
    hide CallSoFar, CacheJustified, ServedInOrder, Balanced, Request, ReplyOk, After, Conserved, Waits, Protocol;
    InboxIsCurrent(st);
    AnswerKeepsProtocol(st, reply);
    var x := Exchange(st.inbox[0], reply);
    ServedNext(st.ops, st.served, x);
    BalancedNext(st.status, st.served, x);
    assert (st.served + [x])[..|st.served|] == st.served == st.served[..|st.served|];
  }

  /** The finished calls and `call`, which has got as far as `p`, account for all operations and replies. */
  ghost predicate ReadyCall(call: Call, p: Progress, ops: seq<Op>, completions: seq<Completion>, returned: seq<Entry>) {
    && ops == AllOps(returned) + call.ops && RepliesOf(completions) == AllReplies(returned) + call.replies
    && |call.ops| == |call.replies|
    && CanCall(call.before, call.cmd)
    && Run(Begin(call.before, call.cmd), call.replies) == Ran(p, call.ops + if p.Suspended? then [p.op] else [])
    && Chained(returned, call.before)
  }

  /** Nothing is outstanding; the stream is half-closed only when the call is over. */
  ghost predicate ReadyRuntime(st: State, p: Progress) {
    && !st.rt.thrown && Quiet(st)
    && |st.completions| == |st.ops|
    && CloseIsLast(st.ops)
    && (st.rt.finished <==> st.rt.halfClosed) && (st.rt.closeSlot.Some? <==> st.rt.halfClosed)
    && (st.rt.halfClosed <==> st.ops != [] && st.ops[|st.ops| - 1].Close?)
    && (st.rt.halfClosed ==> p.Returned?)
    && |st.served| == if st.rt.halfClosed then |st.ops| - 1 else |st.ops|
  }

  /** Between the end of one operation and whatever the coroutine does next. */
  ghost predicate Ready(st: State, call: Call, p: Progress) {
    && Histories(st)
    && ReadyRuntime(st, p)
    && ReadyCall(call, p, st.ops, st.completions, st.returned)
    && CacheJustified(p.client, st.ops, |st.ops|)
    && Balanced(st.served)
    && Consistent(p, After(map[], st.served))
  }

  lemma CallReturns(call: Call, p: Progress, ops: seq<Op>, completions: seq<Completion>, returned: seq<Entry>)
    requires ReadyCall(call, p, ops, completions, returned) && p.Returned?
    ensures CallSoFar(Idle(p.client), ops, completions,
                      returned + [Entry(call.before, call.cmd, call.ops, call.replies, p.client, p.result)])
  {
    hide Run, Begin;
    var e := Entry(call.before, call.cmd, call.ops, call.replies, p.client, p.result);
    assert call.ops + [] == call.ops;
    assert (returned + [e])[..|returned|] == returned;
  }

  lemma CallGoesOn(call: Call, p: Progress, ops: seq<Op>, completions: seq<Completion>, returned: seq<Entry>)
    requires ReadyCall(call, p, ops, completions, returned) && p.Suspended?
    ensures CallSoFar(Busy(call.(ops := call.ops + [p.op]), p.client, p.pc, p.op), ops + [p.op], completions, returned)
  {
    hide Run, Begin, AllOps, AllReplies, Chained;
    assert ops + [p.op] == AllOps(returned) + (call.ops + [p.op]);
  }

  lemma AdvanceProtocol(st: State, call: Call, p: Progress)
    requires ReadyRuntime(st, p)
    ensures Protocol(Advance(st, call, p)) && !Advance(st, call, p).rt.thrown
    ensures var st' := Advance(st, call, p);
            && Single(st'.rt, |st'.ops| - 1) && CloseIsLast(st'.ops)
            && InboxInOrder(st'.ops, st'.inbox, |st'.served|)
            && (st'.rt.halfClosed <==> st'.ops != [] && st'.ops[|st'.ops| - 1].Close?)
    ensures Settled(Advance(st, call, p)) == |st.served| && |st.completions| == |st.ops|
  {
  }

  lemma AdvanceHistories(st: State, call: Call, p: Progress)
    requires Histories(st)
    ensures Histories(Advance(st, call, p))
  {
    hide Request, Legal;
  }

  lemma AdvanceCache(st: State, call: Call, p: Progress)
    requires CacheJustified(p.client, st.ops, |st.ops|)
    ensures CacheJustified(p.client, Advance(st, call, p).ops, |st.ops|)
  {
    assert st.ops[..|st.ops|] == st.ops;
    if p.Suspended? { assert (st.ops + [p.op])[..|st.ops|] == st.ops; }
  }

  lemma AdvanceAgreement(st: State, call: Call, p: Progress)
    requires Consistent(p, After(map[], st.served))
    ensures Agreement(Advance(st, call, p).status, st.served, |st.served|)
  {
    hide Conserved, Waits, After;
    assert st.served[..|st.served|] == st.served;
  }

  lemma AdvanceCall(st: State, call: Call, p: Progress)
    requires ReadyCall(call, p, st.ops, st.completions, st.returned)
    ensures var st' := Advance(st, call, p);
            && CallSoFar(st'.status, st'.ops, st'.completions, st'.returned)
            && st'.served == st.served && st'.completions == st.completions && st'.status.client == p.client
  {
    hide CallSoFar, ReadyCall;
    if p.Returned? {
      CallReturns(call, p, st.ops, st.completions, st.returned);
    } else {
      CallGoesOn(call, p, st.ops, st.completions, st.returned);
    }
  }

  lemma AdvanceKeeps(st: State, call: Call, p: Progress)
    requires Ready(st, call, p)
    ensures Inv(Advance(st, call, p))
  {
    hide Histories, InboxInOrder, Protocol, ReadyRuntime, Single, CloseIsLast, CacheJustified, Consistent, Agreement,
         Balanced, CallSoFar, ReadyCall, Settled, Advance;
    AdvanceHistories(st, call, p);
    AdvanceProtocol(st, call, p);
    AdvanceCache(st, call, p);
    AdvanceAgreement(st, call, p);
    AdvanceCall(st, call, p);
  }

  // ---- A call begins ----

  lemma {:induction false} CloseLoopCache(c: Client, rest: seq<Bytes>)
    ensures CloseLoop(c, rest).client.cached.Keys <= c.cached.Keys
    decreases |rest|
  {
    if rest != [] && !(rest[0] in c.cached && IdOf(c, c.cached[rest[0]]) != 0) { CloseLoopCache(c, rest[1..]); }
  }

  lemma BeginCache(c: Client, cmd: Command)
    ensures Begin(c, cmd).client.cached.Keys <= c.cached.Keys
  {
    if cmd.CloseTx? { CloseLoopCache(c, cmd.order); }
  }

  lemma FirstOps(call: Call, ops: seq<Op>, completions: seq<Completion>, returned: seq<Entry>)
    requires CallSoFar(Idle(call.before), ops, completions, returned)
    requires CanCall(call.before, call.cmd) && call.ops == [] && call.replies == []
    ensures ReadyCall(call, Begin(call.before, call.cmd), ops, completions, returned)
  {
    hide AllOps, AllReplies, Chained, Begin, CanCall;
    var p := Begin(call.before, call.cmd);
    assert Run(p, []) == Ran(p, if p.Suspended? then [p.op] else []);
    assert AllOps(returned) + [] == AllOps(returned) && AllReplies(returned) + [] == AllReplies(returned);
    assert [] + (if p.Suspended? then [p.op] else []) == if p.Suspended? then [p.op] else [];
  }

  lemma InvokeKeeps(st: State, cmd: Command)
    requires Inv(st) && Enabled(st, Invoke(cmd))
    ensures Inv(Step(st, Invoke(cmd)))
  {
    hide Histories, CallSoFar, Balanced, Conserved, Waits, After, Begin, CanCall, ReadyCall;
    var c := st.status.client;
    var call, p := Call(c, cmd, [], []), Begin(c, cmd);
    FirstOps(call, st.ops, st.completions, st.returned);
    assert st.served[..|st.served|] == st.served;
    BeginConsistent(c, cmd, After(map[], st.served));
    BeginCache(c, cmd);
    AdvanceKeeps(st, call, p);
  }

  // ---- An operation completes ----

  /** A resumed coroutine caches a table only when its OPEN was just answered. */
  lemma ResumeCache(c: Client, pc: Pc, op: Op, reply: P.Pair)
    requires Waits(c, pc, op)
    ensures forall t | t in Resume(c, pc, reply).client.cached :: t in c.cached || op == OpenCursor(t)
  {
    if pc.AwaitCloseCursor? && pc.after.CloseRest? { CloseLoopCache(c.(ids := c.ids[pc.ref := 0]), pc.after.rest); }
  }

  lemma CallResumes(
    call: Call, c: Client, pc: Pc, op: Op, ops: seq<Op>, completions: seq<Completion>, returned: seq<Entry>,
    done: Completion)
    requires CallSoFar(Busy(call, c, pc, op), ops, completions, returned)
    ensures ReadyCall(call.(replies := call.replies + [done.reply]), Resume(c, pc, done.reply), ops,
                      completions + [done], returned)
  {
    hide AllOps, AllReplies, Chained, CanCall, Run, Begin, Resume;
    RunOneMore(Begin(call.before, call.cmd), call.replies, done.reply);
    assert RepliesOf(completions + [done]) == RepliesOf(completions) + [done.reply];
  }

  lemma CompletedNext(st: State, reply: P.Pair)
    requires Completed(st.ops, st.completions, st.served, st.writeOk, st.readOk, st.doneOk)
    requires |st.completions| < |st.ops|
    requires var k := |st.completions|;
             if st.ops[k].Close? then k in st.doneOk
             else k in st.writeOk && k in st.readOk && k < |st.served| && reply == st.served[k].reply
    ensures Completed(st.ops, st.completions + [Completion(|st.completions|, reply)], st.served,
                      st.writeOk, st.readOk, st.doneOk)
  {
  }

  /** Running on from a completed operation keeps client and server in agreement. */
  lemma ResumeAgrees(st: State, reply: P.Pair)
    requires st.status.Busy? && Agreement(st.status, st.served, |st.completions|) && Legal(map[], st.served)
    requires if st.status.op.Close? then |st.served| == |st.completions|
             else |st.served| == |st.completions| + 1
                  && st.served[|st.completions|] == Exchange(Request(st.status.op), reply)
    ensures Consistent(Resume(st.status.client, st.status.pc, reply), After(map[], st.served))
    ensures st.status.op.Close? ==> Resume(st.status.client, st.status.pc, reply).Returned?
  {
    hide Conserved, Request, ReplyOk, ServerNext;
    var k := |st.completions|;
    if st.status.op.Close? {
      assert st.served[..k] == st.served;
      assert st.status.pc.AwaitClose?;
    } else {
      assert st.served == st.served[..k] + [st.served[k]];
      AfterLast(map[], st.served[..k], st.served[k]);
      ResumeConsistent(st.status.client, st.status.pc, st.status.op, reply, After(map[], st.served[..k]));
    }
  }

  /** What a posted completion that is ok carries. */
  lemma PostedIsCurrent(st: State)
    requires Protocol(st) && st.rt.posted != []
    ensures st.status.Busy? && |st.rt.posted| == 1 && st.rt.posted[0].op == |st.completions| == |st.ops| - 1
    ensures st.ops[|st.ops| - 1] == st.status.op
    ensures st.rt.posted[0].ok ==>
      var k := |st.completions|;
      if st.status.op.Close? then k in st.doneOk && |st.served| == k
      else k in st.writeOk && k in st.readOk && |st.served| == k + 1 && st.rt.posted[0].reply == st.served[k].reply
  {
    hide Request;
  }

  lemma TakenIsQuiet(st: State, p: Progress, done: seq<Completion>)
    requires !st.rt.thrown && Protocol(st) && st.rt.posted != [] && st.rt.posted[0].ok && |done| == |st.ops|
    requires CloseIsLast(st.ops) && (st.rt.halfClosed <==> st.ops != [] && st.ops[|st.ops| - 1].Close?)
    requires st.status.op.Close? ==> p.Returned?
    ensures ReadyRuntime(st.(rt := TakeWork(st.rt), completions := done), p)
  {
    hide Request;
  }

  lemma IoContextRunsKeeps(st: State)
    requires Inv(st) && Enabled(st, IoContextRuns)
    ensures Inv(Step(st, IoContextRuns))
  {
    hide CallSoFar, Balanced, Conserved, Waits, After, Resume, ReadyCall, Request, Legal, Protocol, Completed;
    PostedIsCurrent(st);
    var work := st.rt.posted[0];
    if work.ok {
      var k := |st.completions|;
      var c, pc, op := st.status.client, st.status.pc, st.status.op;
      var p := Resume(c, pc, work.reply);
      var completions := st.completions + [Completion(work.op, work.reply)];
      CompletedNext(st, work.reply);
      ResumeAgrees(st, work.reply);
      ResumeCache(c, pc, op, work.reply);
      CallResumes(st.status.call, c, pc, op, st.ops, st.completions, st.returned, Completion(work.op, work.reply));
      TakenIsQuiet(st, p, completions);
      assert st.ops[..|st.ops|] == st.ops == st.ops[..k] + [op];
      AdvanceKeeps(st.(rt := TakeWork(st.rt), completions := completions),
                   st.status.call.(replies := st.status.call.replies + [work.reply]), p);
    }
  }

  // ---- Every run ----

  lemma NextKeeps(st: State, a: Action)
    requires Inv(st) && Enabled(st, a)
    ensures Inv(Step(st, a))
  {
    hide Inv, Step, Enabled;
    match a
    case Invoke(cmd) => InvokeKeeps(st, cmd);
    case WriteEvent(ok) => WriteEventKeeps(st, ok);
    case ServerAnswers(reply) => ServerAnswersKeeps(st, reply);
    case ReadEvent(ok) => ReadEventKeeps(st, ok);
    case StreamEvent(ok) => StreamEventKeeps(st, ok);
    case IoContextRuns => IoContextRunsKeeps(st);
  }

  lemma InitInv()
    ensures Inv(INIT)
  {
    assert RepliesOf([]) == [];
  }

  /** Every reachable state, with any failures, satisfies the invariant. */
  lemma {:induction false} EveryRunInv(run: seq<Action>)
    ensures Execute(run).Some? ==> Inv(Execute(run).value)
    decreases |run|
  {
    hide Inv, Step, Enabled;
    if run == [] {
      InitInv();
    } else {
      EveryRunInv(run[..|run| - 1]);
      if Execute(run[..|run| - 1]).Some? && Enabled(Execute(run[..|run| - 1]).value, run[|run| - 1]) {
        NextKeeps(Execute(run[..|run| - 1]).value, run[|run| - 1]);
      }
    }
  }
}
