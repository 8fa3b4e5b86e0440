/**
 Coroutine tasks: a machine over frames, where awaiting a task links `caller_coro` and runs it, and a task that
 ends resumes its caller or runs the completion handler.  The reference is an ordinary recursive function.
 */
module TaskChain {
  import opened Options

  /**
   What a coroutine does next: await something outside, which will resume it later with a value, await a new
   task, or `co_return`.
   */
  datatype Want = Outside | On(child: nat) | Return(value: int)

  /**
   All coroutine bodies: what body `p` does next once its awaits have given the values `vals`.  What is awaited
   may depend on the values, bodies may await themselves, and nothing has to end.
   */
  type Program = (nat, seq<int>) -> Want

  /** The promise's `std::variant`. */
  datatype Result = Empty | Value(value: int) | Exception

  /** A coroutine frame with its promise; `awaiting` is the frame whose `await_resume` it will call. */
  datatype Frame = Frame(
    body: nat, vals: seq<int>, awaiting: Option<nat>, result: Result, caller: Option<nat>, handler: bool)

  datatype Event =
    | Called(caller: nat, task: nat)
    | Resumed(task: nat, caller: nat, value: int)
    | HandlerRan(task: nat)

  /**
   `current` is the running frame, `waiting` the one that something outside will resume, `script` the values it
   will bring.  `failed` says that `await_resume` had no value to return.
   */
  datatype Machine = Machine(
    program: Program, frames: seq<Frame>, current: Option<nat>, waiting: Option<nat>, script: seq<int>,
    log: seq<Event>, failed: bool)

  function NewFrame(body: nat, caller: Option<nat>, handler: bool): Frame {
    Frame(body, [], None, Empty, caller, handler)
  }

  /** What frame `fr` does next. */
  function Wants(program: Program, fr: Frame): Want {
    program(fr.body, fr.vals)
  }

  /** `await_suspend`: a new task, linked to its caller, starts to run. */
  function AwaitSuspend(m: Machine, f: nat, child: nat): Machine
    requires f < |m.frames|
  {
    var n := |m.frames|;
    m.(frames := m.frames[f := m.frames[f].(awaiting := Some(n))] + [NewFrame(child, Some(f), false)],
       current := Some(n), log := m.log + [Called(f, n)])
  }

  /** The next await of `f` has given `v`. */
  function Continue(fr: Frame, v: int): Frame {
    fr.(vals := fr.vals + [v], awaiting := None)
  }

  /** A resumed caller calls `await_resume` on what it awaits. */
  function AwaitResume(m: Machine, c: nat): Machine {
    if c < |m.frames| && m.frames[c].awaiting.Some? && m.frames[c].awaiting.value < |m.frames|
       && m.frames[m.frames[c].awaiting.value].result.Value?
    then
      var t := m.frames[c].awaiting.value;
      var v := m.frames[t].result.value;
      m.(frames := m.frames[c := Continue(m.frames[c], v)], current := Some(c), log := m.log + [Resumed(t, c, v)])
    else m.(current := None, failed := true)
  }

  /** `final_suspend`: resume the caller, or run the completion handler, or neither. */
  function FinalSuspend(m: Machine, f: nat): Machine
    requires f < |m.frames|
  {
    match m.frames[f].caller
    case Some(c) => AwaitResume(m, c)
    case None => m.(current := None, log := m.log + if m.frames[f].handler then [HandlerRan(f)] else [])
  }

  function Step(m: Machine): Machine {
    match m.current
    case None =>
      if m.waiting.Some? && m.waiting.value < |m.frames| && m.script != [] then
        var w := m.waiting.value;
        m.(frames := m.frames[w := Continue(m.frames[w], m.script[0])],
           current := Some(w), waiting := None, script := m.script[1..])
      else m
    case Some(f) =>
      if f >= |m.frames| then m
      else match Wants(m.program, m.frames[f])
        case Outside => m.(current := None, waiting := Some(f))
        case On(child) => AwaitSuspend(m, f, child)
        case Return(v) => FinalSuspend(m.(frames := m.frames[f := m.frames[f].(result := Value(v))]), f)
  }

  function Exec(m: Machine, n: nat): Machine
    decreases n
  {
    if n == 0 then m else Exec(Step(m), n - 1)
  }

  /** `start` on a task that nobody awaits, with or without a completion handler. */
  function Start(program: Program, root: nat, handler: bool, script: seq<int>): Machine {
    Machine(program, [NewFrame(root, None, handler)], Some(0), None, script, [], false)
  }

  lemma {:induction false} ExecAdd(m: Machine, a: nat, b: nat)
    ensures Exec(m, a + b) == Exec(Exec(m, a), b)
    decreases a
  {
    hide Step;
    if a > 0 { ExecAdd(Step(m), a - 1, b); }
  }

  lemma ExecStep(m: Machine, n: nat)
    ensures Exec(m, 1 + n) == Exec(Step(m), n)
  {
  }

  lemma ExecNone(m: Machine)
    ensures Exec(m, 0) == m
  {
  }

  // ---- The recursive reading ----

  datatype Answer = Returns(value: int, rest: seq<int>) | NeedsMore | OutOfFuel

  /**
   A body as an ordinary recursive function, at most `fuel` calls deep and long: the value it returns and the
   outside values it did not use, or that it needs more of them.
   */
  function Call(program: Program, body: nat, vals: seq<int>, script: seq<int>, fuel: nat): Answer
    decreases fuel
  {
    if fuel == 0 then OutOfFuel
    else match program(body, vals)
      case Return(v) => Returns(v, script)
      case Outside =>
        if script == [] then NeedsMore else Call(program, body, vals + [script[0]], script[1..], fuel - 1)
      case On(child) =>
        match Call(program, child, [], script, fuel - 1)
        case Returns(v, rest) => Call(program, body, vals + [v], rest, fuel - 1)
        case other => other
  }

  /** More fuel never changes an answer. */
  lemma {:induction false} EnoughFuel(program: Program, body: nat, vals: seq<int>, script: seq<int>, k: nat, k': nat)
    requires k <= k' && !Call(program, body, vals, script, k).OutOfFuel?
    ensures Call(program, body, vals, script, k') == Call(program, body, vals, script, k)
    decreases k
  {
    match program(body, vals)
    case Return(_) =>
    case Outside =>
      if script != [] { EnoughFuel(program, body, vals + [script[0]], script[1..], k - 1, k' - 1); }
    case On(child) =>
      EnoughFuel(program, child, [], script, k - 1, k' - 1);
      var a := Call(program, child, [], script, k - 1);
      if a.Returns? { EnoughFuel(program, body, vals + [a.value], a.rest, k - 1, k' - 1); }
  }

  /** How the rest of a frame ends: about to return, waiting for an outside value, or still running. */
  datatype End = Finished | Waiting | Running

  /**
   What the rest of frame `f` does to the machine: the frame itself and the frames made for others, the frame `at`
   which it stopped, the values left, the log and the number of steps.
   */
  datatype Outcome = Outcome(
    end: End, own: Frame, more: seq<Frame>, at: nat, script: seq<int>, log: seq<Event>, steps: nat)

  /** Frame `f` is `fr` and runs; new frames are numbered from `n`. */
  function Rest(program: Program, f: nat, fr: Frame, n: nat, script: seq<int>, fuel: nat): Outcome
    decreases fuel
  {
    if fuel == 0 then Outcome(Running, fr, [], f, script, [], 0)
    else match Wants(program, fr)
      case Return(_) => Outcome(Finished, fr, [], f, script, [], 0)
      case Outside =>
        if script == [] then Outcome(Waiting, fr, [], f, [], [], 1)
        else
          var o := Rest(program, f, Continue(fr, script[0]), n, script[1..], fuel - 1);
          o.(steps := 2 + o.steps)
      case On(child) =>
        var o1 := Rest(program, n, NewFrame(child, Some(f), false), n + 1, script, fuel - 1);
        if !o1.end.Finished? then
          Outcome(o1.end, fr.(awaiting := Some(n)), [o1.own] + o1.more, o1.at, o1.script,
                  [Called(f, n)] + o1.log, 1 + o1.steps)
        else
          var v := ValueOf(program, o1.own);
          var o2 := Rest(program, f, Continue(fr, v), n + 1 + |o1.more|, o1.script, fuel - 1);
          o2.(more := [Returned(program, o1.own)] + o1.more + o2.more,
              log := [Called(f, n)] + o1.log + [Resumed(n, f, v)] + o2.log,
              steps := (1 + o1.steps + 1) + o2.steps)
  }

  /** The value a frame is about to return. */
  function ValueOf(program: Program, fr: Frame): int {
    match Wants(program, fr) case Return(v) => v case _ => 0
  }

  function Returned(program: Program, fr: Frame): Frame {
    fr.(result := Value(ValueOf(program, fr)))
  }

  /** The rest of what frame `f` awaits next. */
  function ChildRest(program: Program, f: nat, fr: Frame, n: nat, script: seq<int>, fuel: nat): Outcome
    requires fuel > 0 && Wants(program, fr).On?
  {
    Rest(program, n, NewFrame(Wants(program, fr).child, Some(f), false), n + 1, script, fuel - 1)
  }

  lemma RestStops(program: Program, f: nat, fr: Frame, n: nat, script: seq<int>, fuel: nat)
    ensures fuel == 0 ==> Rest(program, f, fr, n, script, fuel) == Outcome(Running, fr, [], f, script, [], 0)
    ensures fuel > 0 && Wants(program, fr).Return? ==>
              Rest(program, f, fr, n, script, fuel) == Outcome(Finished, fr, [], f, script, [], 0)
  {
  }

  lemma RestOutside(program: Program, f: nat, fr: Frame, n: nat, script: seq<int>, fuel: nat)
    requires fuel > 0 && Wants(program, fr).Outside?
    ensures script == [] ==> Rest(program, f, fr, n, script, fuel) == Outcome(Waiting, fr, [], f, [], [], 1)
    ensures script != [] ==>
              var next := Rest(program, f, Continue(fr, script[0]), n, script[1..], fuel - 1);
              Rest(program, f, fr, n, script, fuel) == next.(steps := 2 + next.steps)
  {
  }

  lemma RestInChild(program: Program, f: nat, fr: Frame, n: nat, script: seq<int>, fuel: nat)
    requires fuel > 0 && Wants(program, fr).On? && !ChildRest(program, f, fr, n, script, fuel).end.Finished?
    ensures var o1 := ChildRest(program, f, fr, n, script, fuel);
            Rest(program, f, fr, n, script, fuel) ==
              Outcome(o1.end, fr.(awaiting := Some(n)), [o1.own] + o1.more, o1.at, o1.script,
                      [Called(f, n)] + o1.log, 1 + o1.steps)
  {
  }

  lemma RestOfCaller(program: Program, f: nat, fr: Frame, n: nat, script: seq<int>, fuel: nat)
    requires fuel > 0 && Wants(program, fr).On? && ChildRest(program, f, fr, n, script, fuel).end.Finished?
    ensures var o1 := ChildRest(program, f, fr, n, script, fuel);
            var v := ValueOf(program, o1.own);
            var next := Rest(program, f, Continue(fr, v), n + 1 + |o1.more|, o1.script, fuel - 1);
            Rest(program, f, fr, n, script, fuel) ==
              next.(more := [Returned(program, o1.own)] + o1.more + next.more,
                    log := [Called(f, n)] + o1.log + [Resumed(n, f, v)] + next.log,
                    steps := (1 + o1.steps + 1) + next.steps)
  {
  }

  /** What stays of a frame, and where it is when its task has ended. */
  lemma {:induction false} OwnFrame(program: Program, f: nat, fr: Frame, n: nat, script: seq<int>, fuel: nat)
    requires fr.awaiting == None
    ensures var o := Rest(program, f, fr, n, script, fuel);
            && o.own.body == fr.body && o.own.caller == fr.caller && o.own.handler == fr.handler
            && o.own.result == fr.result
            && (o.end.Finished? ==> Wants(program, o.own).Return? && o.own.awaiting == None)
    decreases fuel
  {
    hide Rest;
    RestStops(program, f, fr, n, script, fuel);
    if fuel > 0 && Wants(program, fr).Outside? {
      RestOutside(program, f, fr, n, script, fuel);
      if script != [] { OwnFrame(program, f, Continue(fr, script[0]), n, script[1..], fuel - 1); }
    } else if fuel > 0 && Wants(program, fr).On? {
      var o1 := ChildRest(program, f, fr, n, script, fuel);
      if o1.end.Finished? {
        RestOfCaller(program, f, fr, n, script, fuel);
        OwnFrame(program, f, Continue(fr, ValueOf(program, o1.own)), n + 1 + |o1.more|, o1.script, fuel - 1);
      } else {
        RestInChild(program, f, fr, n, script, fuel);
      }
    }
  }

  // ---- The machine follows it ----

  /** Where the machine is after the rest of frame `f`. */
  function Reached(m: Machine, f: nat, o: Outcome): Machine
    requires f < |m.frames|
  {
    At(m, m.frames[f := o.own] + o.more, f, o, m.log + o.log)
  }

  /** Frame `f` has come to the end `o`. */
  function At(m: Machine, frames: seq<Frame>, f: nat, o: Outcome, log: seq<Event>): Machine {
    Machine(m.program, frames,
            match o.end { case Finished => Some(f) case Running => Some(o.at) case Waiting => None },
            if o.end.Waiting? then Some(o.at) else None, o.script, log, false)
  }

  predicate Runs(m: Machine, f: nat) {
    m.current == Some(f) && f < |m.frames| && m.waiting == None && !m.failed && m.frames[f].awaiting == None
  }

  predicate Calls(m: Machine, f: nat, fuel: nat) {
    fuel > 0 && Runs(m, f) && Wants(m.program, m.frames[f]).On?
  }

  /** The machine does what the recursive reading says, step for step. */
  lemma {:induction false} MachineFollows(m: Machine, f: nat, fuel: nat)
    requires Runs(m, f)
    ensures var o := Rest(m.program, f, m.frames[f], |m.frames|, m.script, fuel);
            Exec(m, o.steps) == Reached(m, f, o)
    decreases fuel, 4
  {
    hide Step, Rest;
    var fr := m.frames[f];
    RestStops(m.program, f, fr, |m.frames|, m.script, fuel);
    if fuel == 0 || Wants(m.program, fr).Return? {
      assert m.frames[f := fr] + [] == m.frames && m.log + [] == m.log;
    } else if Wants(m.program, fr).Outside? {
      OutsideFollows(m, f, fuel);
    } else {
      ChildFollows(m, f, fuel);
    }
  }

  lemma {:induction false} OutsideFollows(m: Machine, f: nat, fuel: nat)
    requires fuel > 0 && Runs(m, f) && Wants(m.program, m.frames[f]).Outside?
    ensures var o := Rest(m.program, f, m.frames[f], |m.frames|, m.script, fuel);
            Exec(m, o.steps) == Reached(m, f, o)
    decreases fuel, 0
  {
    hide Rest, Exec;
    var fr := m.frames[f];
    RestOutside(m.program, f, fr, |m.frames|, m.script, fuel);
    if m.script == [] {
      ExecStep(m, 0);
      ExecNone(Step(m));
      assert m.frames[f := fr] + [] == m.frames && m.log + [] == m.log;
    } else {
      var m2 := Step(Step(m));
      var o2 := Rest(m.program, f, m2.frames[f], |m2.frames|, m2.script, fuel - 1);
      MachineFollows(m2, f, fuel - 1);
      ExecStep(m, 1 + o2.steps);
      ExecStep(Step(m), o2.steps);
      assert m2.frames[f := o2.own] == m.frames[f := o2.own];
    }
  }

  /** The awaited task runs, until it is about to return, waits, or the fuel is used up. */
  lemma {:induction false} ChildRuns(m: Machine, f: nat, fuel: nat)
    requires Calls(m, f, fuel)
    ensures var n, fr := |m.frames|, m.frames[f];
            var o := ChildRest(m.program, f, fr, n, m.script, fuel);
            Exec(m, 1 + o.steps) ==
              At(m, m.frames[f := fr.(awaiting := Some(n))] + ([o.own] + o.more), n, o, m.log + [Called(f, n)] + o.log)
    decreases fuel, 0
  {
    hide Rest, Exec;
    var fr, n := m.frames[f], |m.frames|;
    var child := Wants(m.program, fr).child;
    var m1 := AwaitSuspend(m, f, child);
    assert Step(m) == m1;
    var o := ChildRest(m.program, f, fr, n, m.script, fuel);
    MachineFollows(m1, n, fuel - 1);
    ExecStep(m, o.steps);
    ChildFrames(m.frames, f, fr.(awaiting := Some(n)), NewFrame(child, Some(f), false), o.own, o.more);
  }

  lemma ChildFrames(frames: seq<Frame>, f: nat, fr: Frame, child: Frame, own: Frame, more: seq<Frame>)
    requires f < |frames|
    ensures (frames[f := fr] + [child])[|frames| := own] + more == frames[f := fr] + ([own] + more)
  {
  }

  lemma {:induction false} ChildFollows(m: Machine, f: nat, fuel: nat)
    requires Calls(m, f, fuel)
    ensures var o := Rest(m.program, f, m.frames[f], |m.frames|, m.script, fuel);
            Exec(m, o.steps) == Reached(m, f, o)
    decreases fuel, 3
  {
    hide Step, Exec, Rest;
    var fr, n := m.frames[f], |m.frames|;
    var o1 := ChildRest(m.program, f, fr, n, m.script, fuel);
    if o1.end.Finished? {
      ChildFinishes(m, f, fuel);
    } else {
      ChildRuns(m, f, fuel);
      RestInChild(m.program, f, fr, n, m.script, fuel);
      assert m.log + [Called(f, n)] + o1.log == m.log + ([Called(f, n)] + o1.log);
    }
  }

  /** The machine once what `f` awaits has returned. */
  function AfterChild(m: Machine, f: nat, o: Outcome): Machine
    requires f < |m.frames|
  {
    var n, v := |m.frames|, ValueOf(m.program, o.own);
    Machine(m.program, m.frames[f := Continue(m.frames[f], v)] + ([Returned(m.program, o.own)] + o.more), Some(f), None,
            o.script, m.log + [Called(f, n)] + o.log + [Resumed(n, f, v)], false)
  }

  lemma {:induction false} ChildEnds(m: Machine, f: nat, fuel: nat)
    requires Calls(m, f, fuel) && ChildRest(m.program, f, m.frames[f], |m.frames|, m.script, fuel).end.Finished?
    ensures var o := ChildRest(m.program, f, m.frames[f], |m.frames|, m.script, fuel);
            Exec(m, 1 + o.steps + 1) == AfterChild(m, f, o)
    decreases fuel, 1
  {
    hide Step, Exec, Rest;
    var fr, n := m.frames[f], |m.frames|;
    var o := ChildRest(m.program, f, fr, n, m.script, fuel);
    OwnFrame(m.program, n, NewFrame(Wants(m.program, fr).child, Some(f), false), n + 1, m.script, fuel - 1);
    ChildRuns(m, f, fuel);
    ChildReturns(m, f, o.own, o.more, o.script, m.log + [Called(f, n)] + o.log);
    ExecAdd(m, 1 + o.steps, 1);
    ExecStep(Exec(m, 1 + o.steps), 0);
    ExecNone(Step(Exec(m, 1 + o.steps)));
  }

  /** A finished task resumes the caller that awaits it, which sees the returned value. */
  lemma ChildReturns(m: Machine, f: nat, own: Frame, more: seq<Frame>, script: seq<int>, log: seq<Event>)
    requires f < |m.frames| && m.frames[f].awaiting == None
    requires own.caller == Some(f) && Wants(m.program, own).Return?
    ensures var n, fr, v := |m.frames|, m.frames[f], ValueOf(m.program, own);
            var before := m.(frames := m.frames[f := fr.(awaiting := Some(n))] + ([own] + more),
                             current := Some(n), waiting := None, script := script, log := log, failed := false);
            Step(before) ==
              before.(frames := m.frames[f := Continue(fr, v)] + ([Returned(m.program, own)] + more),
                      current := Some(f), log := log + [Resumed(n, f, v)])
  {
    var n, fr, v := |m.frames|, m.frames[f], ValueOf(m.program, own);
    ReturnedFrames(m.frames, f, fr.(awaiting := Some(n)), own, Returned(m.program, own), Continue(fr, v), more);
  }

  lemma ReturnedFrames(
    frames: seq<Frame>, f: nat, fr: Frame, own: Frame, own': Frame, fr': Frame, more: seq<Frame>)
    requires f < |frames|
    ensures (frames[f := fr] + ([own] + more))[|frames| := own'][f := fr'] == frames[f := fr'] + ([own'] + more)
  {
  }

  /** The awaited task returns, and its caller goes on. */
  lemma {:induction false} ChildFinishes(m: Machine, f: nat, fuel: nat)
    requires Calls(m, f, fuel) && ChildRest(m.program, f, m.frames[f], |m.frames|, m.script, fuel).end.Finished?
    ensures var o := Rest(m.program, f, m.frames[f], |m.frames|, m.script, fuel);
            Exec(m, o.steps) == Reached(m, f, o)
    decreases fuel, 2
  {
    hide Step, Exec, Rest, Reached;
    var fr, n := m.frames[f], |m.frames|;
    var o1 := ChildRest(m.program, f, fr, n, m.script, fuel);
    var m3 := AfterChild(m, f, o1);
    var v := ValueOf(m.program, o1.own);
    var next := Rest(m.program, f, Continue(fr, v), n + 1 + |o1.more|, o1.script, fuel - 1);
    RestOfCaller(m.program, f, fr, n, m.script, fuel);
    ChildEnds(m, f, fuel);
    MachineFollows(m3, f, fuel - 1);
    ExecAdd(m, 1 + o1.steps + 1, next.steps);
    Joined(m, m3, f, Continue(fr, v), [Returned(m.program, o1.own)] + o1.more,
           [Called(f, n)], o1.log, [Resumed(n, f, v)], next, Rest(m.program, f, fr, n, m.script, fuel));
  }

  /** The outcome from the return of the child on, seen from where the child was called. */
  lemma Joined(
    m: Machine, m3: Machine, f: nat, fr: Frame, more: seq<Frame>, l1: seq<Event>, l2: seq<Event>, l3: seq<Event>,
    next: Outcome, o: Outcome)
    requires f < |m.frames| && m3.frames == m.frames[f := fr] + more && m3.log == m.log + l1 + l2 + l3
    requires m3.program == m.program
    requires o == next.(more := more + next.more, log := l1 + l2 + l3 + next.log, steps := o.steps)
    ensures Reached(m3, f, next) == Reached(m, f, o)
  {
    assert (m.frames[f := fr] + more)[f := next.own] + next.more == m.frames[f := next.own] + (more + next.more);
    assert m.log + l1 + l2 + l3 + next.log == m.log + (l1 + l2 + l3 + next.log);
  }
}
