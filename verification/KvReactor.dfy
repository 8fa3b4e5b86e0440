/**
 The reactor and the asynchronous operations on it: one callback slot for each kind of event, one reply buffer
 shared by all reads, and the work posted to the io_context.

 A stored callback is the lambda of some operation's initiator; it is represented by the operation's number.
 */
module KvReactor {
  import opened Options
  import P = PairCodec

  /** A posted completion: the operation, whether its last event was ok, and the reply it captured. */
  datatype Work = Work(op: nat, ok: bool, reply: P.Pair)

  /**
   `writing` and `reading` are the operations whose started write or read has not been reported done: what the
   gRPC library knows.  `thrown` records that a callback threw (or an empty one was called).
   */
  datatype Runtime = Runtime(
    writeSlot: Option<nat>, readSlot: Option<nat>, closeSlot: Option<nat>, pair: P.Pair,
    writing: Option<nat>, reading: Option<nat>, halfClosed: bool, finished: bool,
    posted: seq<Work>, thrown: bool)

  const FRESH: Runtime := Runtime(None, None, None, P.EMPTY, None, None, false, false, [], false)

  /** Initiating operation `id`: a request starts a write, the close operation half-closes. */
  function StartOp(rt: Runtime, id: nat, isClose: bool): Runtime {
    if isClose then rt.(closeSlot := Some(id), halfClosed := true)
    else rt.(writeSlot := Some(id), writing := Some(id))
  }

  /** The callback in the write slot: throw, or start the read of the same operation. */
  function WriteDone(rt: Runtime, ok: bool): Runtime {
    var rt' := rt.(writing := None);
    if rt.writeSlot.None? || !ok then rt'.(thrown := true)
    else rt'.(readSlot := rt.writeSlot, reading := rt.writeSlot)
  }

  /** The callback in the read slot: post the completion with the reply just read. */
  function ReadDone(rt: Runtime, ok: bool, incoming: P.Pair): Runtime {
    var rt' := rt.(reading := None, pair := if ok then incoming else rt.pair);
    if rt.readSlot.None? then rt'.(thrown := true)
    else rt'.(posted := rt'.posted + [Work(rt.readSlot.value, ok, rt'.pair)])
  }

  function StreamDone(rt: Runtime, ok: bool): Runtime {
    var rt' := rt.(finished := true);
    if rt.closeSlot.None? then rt'.(thrown := true)
    else rt'.(posted := rt'.posted + [Work(rt.closeSlot.value, ok, P.EMPTY)])
  }

  /** The first posted work is taken off the queue; it throws unless its event was ok. */
  function TakeWork(rt: Runtime): Runtime
    requires rt.posted != []
  {
    rt.(posted := rt.posted[1..], thrown := rt.thrown || !rt.posted[0].ok)
  }

  class GrpcClientReactor {
    var writeCompleted: Option<nat>
    var readCompleted: Option<nat>
    var closeCompleted: Option<nat>
    var pair: P.Pair
    var writing: Option<nat>
    var reading: Option<nat>
    var halfClosed: bool
    var finished: bool
    var posted: seq<Work>
    var thrown: bool

    function View(): Runtime
      reads this
    {
      Runtime(writeCompleted, readCompleted, closeCompleted, pair,
              writing, reading, halfClosed, finished, posted, thrown)
    }

    constructor ()
      ensures View() == FRESH
    {
      writeCompleted, readCompleted, closeCompleted, pair := None, None, None, P.EMPTY;
      writing, reading, halfClosed, finished, posted, thrown := None, None, false, false, [], false;
    }

    method CloseStart(id: nat)
      modifies this
      ensures View() == StartOp(old(View()), id, true)
    {
      closeCompleted := Some(id);
      halfClosed := true;
    }

    method WriteStart(id: nat)
      modifies this
      ensures View() == StartOp(old(View()), id, false)
    {
      writeCompleted := Some(id);
      writing := Some(id);
    }

    method ReadStart(id: nat)
      modifies this
      ensures View() == old(View()).(readSlot := Some(id), reading := Some(id))
    {
      readCompleted := Some(id);
      reading := Some(id);
    }

    method OnWriteDone(ok: bool)
      modifies this
      ensures View() == WriteDone(old(View()), ok)
    {
      writing := None;
      match writeCompleted {
        case None => thrown := true;
        case Some(id) => WriteCompleted(id, ok);
      }
    }

    method OnReadDone(ok: bool, incoming: P.Pair)
      modifies this
      ensures View() == ReadDone(old(View()), ok, incoming)
    {
      reading := None;
      if ok { pair := incoming; }
      match readCompleted {
        case None => thrown := true;
        case Some(id) => Completed(id, ok, pair);
      }
    }

    method OnDone(ok: bool)
      modifies this
      ensures View() == StreamDone(old(View()), ok)
    {
      finished := true;
      match closeCompleted {
        case None => thrown := true;
        case Some(id) => Completed(id, ok, P.EMPTY);
      }
    }

    /** The lambda an initiator passes to `write_start`. */
    method WriteCompleted(id: nat, ok: bool)
      modifies this
      ensures View() == if ok then old(View()).(readSlot := Some(id), reading := Some(id))
              else old(View()).(thrown := true)
    {
      if !ok {
        thrown := true;
        return;
      }
      ReadStart(id);
    }

    /** The lambda passed to `read_start` or `close_start`: hand the completion to the io_context. */
    method Completed(id: nat, ok: bool, reply: P.Pair)
      modifies this
      ensures View() == old(View()).(posted := old(posted) + [Work(id, ok, reply)])
    {
      posted := posted + [Work(id, ok, reply)];
    }

    /** The io_context runs the first posted lambda: it throws, or completes its operation. */
    method RunPosted(op: AsyncOperation) returns (work: Work)
      requires posted != [] && op.pending
      modifies this, op
      ensures View() == TakeWork(old(View()))
      ensures work == old(posted)[0]
      ensures op.pending == !work.ok
      ensures op.history == old(op.history) + if work.ok then [Freed, Upcall(work.reply)] else []
    {
      work, posted := posted[0], posted[1..];
      if !work.ok {
        thrown := true;
        return;
      }
      op.Complete(true, work.reply);
    }
  }

  /** What happens to an operation: its memory is freed, its handler is called. */
  datatype OperationEvent = Freed | Upcall(reply: P.Pair)

  /** `async_operation` and its `do_complete`: the operation is freed first, then the handler is called. */
  class AsyncOperation {
    var pending: bool
    var history: seq<OperationEvent>

    constructor ()
      ensures pending && history == []
    {
      pending, history := true, [];
    }

    method Complete(owner: bool, reply: P.Pair)
      requires pending
      modifies this
      ensures !pending && history == old(history) + [Freed] + if owner then [Upcall(reply)] else []
    {
      DoComplete(owner, reply);
    }

    /** Without an owner the operation only goes away. */
    method Destroy()
      requires pending
      modifies this
      ensures !pending && history == old(history) + [Freed]
    {
      DoComplete(false, P.EMPTY);
    }

    method DoComplete(owner: bool, reply: P.Pair)
      requires pending
      modifies this
      ensures !pending && history == old(history) + [Freed] + if owner then [Upcall(reply)] else []
    {
      pending := false;
      history := history + [Freed];
      if owner {
        history := history + [Upcall(reply)];
      }
    }
  }
}
