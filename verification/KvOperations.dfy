/**
 The operation objects of a run.  Whenever the io_context runs posted work, the operation it completes is still
 pending: on no run is an operation completed, or its memory freed, twice.
 */
module KvOperations {
  import opened Options
  import opened KvClient
  import opened KvReactor
  import opened KvSession
  import opened KvMachine

  /** The objects of the operations initiated so far: completed ones were freed and then called back, once. */
  ghost predicate Accounted(operations: seq<AsyncOperation>, completions: seq<Completion>)
    reads operations
  {
    && (forall i, j | 0 <= i < j < |operations| :: operations[i] != operations[j])
    && (forall k | 0 <= k < |operations| ::
          && operations[k].pending == (k >= |completions|)
          && operations[k].history == if k < |completions| then [Freed, Upcall(completions[k].reply)] else [])
  }

  /** Posted work belongs to the one operation that is not yet completed. */
  lemma PostedIsPending(run: seq<Action>, st: State)
    requires Execute(run) == Some(st) && Enabled(st, IoContextRuns)
    ensures st.status.Busy? && st.rt.posted != []
    ensures st.rt.posted[0].op == |st.completions| == |st.ops| - 1
  {
    hide Execute, Histories, CallSoFar, CacheJustified, Balanced, Agreement, Protocol;
    EveryRunInv(run);
    PostedIsCurrent(st);
  }

  /** The completions after the io_context has run the first posted work. */
  lemma CompletionsAfter(st: State)
    requires Enabled(st, IoContextRuns) && st.status.Busy?
    ensures var work := st.rt.posted[0];
            Step(st, IoContextRuns).completions ==
              st.completions + if work.ok then [Completion(work.op, work.reply)] else []
  {
    hide Resume;
  }

  /** The io_context runs the first posted work of a run on the reactor and the operation objects. */
  method RunPostedWork(
    reactor: GrpcClientReactor, operations: seq<AsyncOperation>, ghost run: seq<Action>, ghost st: State)
    requires Execute(run) == Some(st) && Enabled(st, IoContextRuns)
    requires reactor.View() == st.rt && |operations| == |st.ops| && Accounted(operations, st.completions)
    modifies reactor, operations
    ensures reactor.View() == TakeWork(st.rt)
    ensures Accounted(operations, Step(st, IoContextRuns).completions)
  {
    hide Execute, Step, Enabled;
    PostedIsPending(run, st);
    CompletionsAfter(st);
    var _ := reactor.RunPosted(operations[reactor.posted[0].op]);
  }
}
