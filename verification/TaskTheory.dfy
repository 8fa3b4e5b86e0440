/**
 Task chains behave like calls: for every program and every sequence of outside values a started task computes
 what the recursive function computes, if that ends at all, and its log is at any time that of nested calls.
 */
module TaskTheory {
  import opened Options
  import opened TaskChain

  /** The rest of a frame answers as the rest of the function body. */
  lemma {:induction false} RestIsCall(program: Program, f: nat, fr: Frame, n: nat, script: seq<int>, fuel: nat)
    ensures var o := Rest(program, f, fr, n, script, fuel);
            Call(program, fr.body, fr.vals, script, fuel) ==
              (match o.end
               case Finished => Returns(ValueOf(program, o.own), o.script)
               case Waiting => NeedsMore
               case Running => OutOfFuel)
    ensures var o := Rest(program, f, fr, n, script, fuel);
            o.end.Waiting? ==> o.script == []
    decreases fuel
  {
    hide Rest;
    RestStops(program, f, fr, n, script, fuel);
    if fuel > 0 && Wants(program, fr).Outside? {
      RestOutside(program, f, fr, n, script, fuel);
      if script != [] { RestIsCall(program, f, Continue(fr, script[0]), n, script[1..], fuel - 1); }
    } else if fuel > 0 && Wants(program, fr).On? {
      var o1 := ChildRest(program, f, fr, n, script, fuel);
      RestIsCall(program, n, NewFrame(Wants(program, fr).child, Some(f), false), n + 1, script, fuel - 1);
      if o1.end.Finished? {
        RestOfCaller(program, f, fr, n, script, fuel);
        RestIsCall(program, f, Continue(fr, ValueOf(program, o1.own)), n + 1 + |o1.more|, o1.script, fuel - 1);
      } else {
        RestInChild(program, f, fr, n, script, fuel);
      }
    }
  }

  /** Every outside value and every awaited task costs two steps; what has used up its fuel has made as many steps. */
  lemma {:induction false} StepsOfRest(program: Program, f: nat, fr: Frame, n: nat, script: seq<int>, fuel: nat)
    ensures var o := Rest(program, f, fr, n, script, fuel);
            && |o.script| <= |script|
            && (o.end.Finished? ==> o.steps == 2 * (|script| - |o.script|) + 2 * |o.more|)
            && (o.end.Running? ==> o.steps >= fuel)
    decreases fuel
  {
    hide Rest;
    RestStops(program, f, fr, n, script, fuel);
    if fuel > 0 && Wants(program, fr).Outside? {
      RestOutside(program, f, fr, n, script, fuel);
      if script != [] { StepsOfRest(program, f, Continue(fr, script[0]), n, script[1..], fuel - 1); }
    } else if fuel > 0 && Wants(program, fr).On? {
      var o1 := ChildRest(program, f, fr, n, script, fuel);
      StepsOfRest(program, n, NewFrame(Wants(program, fr).child, Some(f), false), n + 1, script, fuel - 1);
      if o1.end.Finished? {
        RestOfCaller(program, f, fr, n, script, fuel);
        StepsOfRest(program, f, Continue(fr, ValueOf(program, o1.own)), n + 1 + |o1.more|, o1.script, fuel - 1);
      } else {
        RestInChild(program, f, fr, n, script, fuel);
      }
    }
  }

  // ---- The log ----

  /** The effect of an event on the stack of tasks that await each other, innermost last. */
  function Replayed(stack: seq<nat>, e: Event): Option<seq<nat>> {
    var k := |stack|;
    match e
    case Called(c, t) => if k > 0 && stack[k - 1] == c then Some(stack + [t]) else None
    case Resumed(t, c, _) => if k > 1 && stack[k - 1] == t && stack[k - 2] == c then Some(stack[..k - 1]) else None
    case HandlerRan(t) => if stack == [t] then Some([]) else None
  }

  /** The log read as nested calls; `None` if some task ends that is not the innermost. */
  function Replay(stack: seq<nat>, log: seq<Event>): Option<seq<nat>>
    decreases |log|
  {
    if log == [] then Some(stack)
    else match Replayed(stack, log[0])
      case None => None
      case Some(stack') => Replay(stack', log[1..])
  }

  lemma {:induction false} ReplayConcat(stack: seq<nat>, l1: seq<Event>, l2: seq<Event>)
    ensures Replay(stack, l1 + l2) ==
            match Replay(stack, l1) { case None => None case Some(stack') => Replay(stack', l2) }
    decreases |l1|
  {
    if l1 == [] {
      assert l1 + l2 == l2;
    } else {
      assert (l1 + l2)[1..] == l1[1..] + l2;
      if Replayed(stack, l1[0]).Some? { ReplayConcat(Replayed(stack, l1[0]).value, l1[1..], l2); }
    }
  }

  lemma ReplayOne(stack: seq<nat>, e: Event)
    ensures Replay(stack, [e]) == Replayed(stack, e)
  {
    assert [e][1..] == [];
  }

  /** A call that returns leaves the stack as it was. */
  lemma ReplayCall(stack: seq<nat>, f: nat, n: nat, log: seq<Event>, v: int, rest: seq<Event>)
    requires |stack| > 0 && stack[|stack| - 1] == f && Replay(stack + [n], log) == Some(stack + [n])
    ensures Replay(stack, [Called(f, n)] + log + [Resumed(n, f, v)] + rest) == Replay(stack, rest)
  {
    ReplayOne(stack, Called(f, n));
    ReplayConcat(stack, [Called(f, n)], log);
    ReplayOne(stack + [n], Resumed(n, f, v));
    assert (stack + [n])[..|stack|] == stack;
    ReplayConcat(stack, [Called(f, n)] + log, [Resumed(n, f, v)]);
    ReplayConcat(stack, [Called(f, n)] + log + [Resumed(n, f, v)], rest);
  }

  lemma ReplayNone(stack: seq<nat>)
    ensures Replay(stack, []) == Some(stack)
  {
  }

  /** Callers resume innermost first. */
  lemma {:induction false} RestNested(
    program: Program, f: nat, fr: Frame, n: nat, script: seq<int>, fuel: nat, stack: seq<nat>)
    requires |stack| > 0 && stack[|stack| - 1] == f
    ensures var o := Rest(program, f, fr, n, script, fuel);
            Replay(stack, o.log).Some? && (o.end.Finished? ==> Replay(stack, o.log) == Some(stack))
    decreases fuel
  {
    hide Rest, Replay;
    RestStops(program, f, fr, n, script, fuel);
    ReplayNone(stack);
    if fuel > 0 && Wants(program, fr).Outside? {
      RestOutside(program, f, fr, n, script, fuel);
      if script != [] { RestNested(program, f, Continue(fr, script[0]), n, script[1..], fuel - 1, stack); }
    } else if fuel > 0 && Wants(program, fr).On? {
      var o1 := ChildRest(program, f, fr, n, script, fuel);
      var child := NewFrame(Wants(program, fr).child, Some(f), false);
      RestNested(program, n, child, n + 1, script, fuel - 1, stack + [n]);
      if o1.end.Finished? {
        var v := ValueOf(program, o1.own);
        RestOfCaller(program, f, fr, n, script, fuel);
        RestNested(program, f, Continue(fr, v), n + 1 + |o1.more|, o1.script, fuel - 1, stack);
        var o2 := Rest(program, f, Continue(fr, v), n + 1 + |o1.more|, o1.script, fuel - 1);
        ReplayCall(stack, f, n, o1.log, v, o2.log);
      } else {
        ReplayOne(stack, Called(f, n));
        ReplayConcat(stack, [Called(f, n)], o1.log);
        RestInChild(program, f, fr, n, script, fuel);
      }
    }
  }

  /** How often task `t` resumed a caller. */
  function Resumes(log: seq<Event>, t: nat): nat {
    if log == [] then 0
    else
      var last := log[|log| - 1];
      Resumes(log[..|log| - 1], t) + if last.Resumed? && last.task == t then 1 else 0
  }

  lemma {:induction false} ResumesConcat(l1: seq<Event>, l2: seq<Event>, t: nat)
    ensures Resumes(l1 + l2, t) == Resumes(l1, t) + Resumes(l2, t)
    decreases |l2|
  {
    if l2 == [] {
      assert l1 + l2 == l1;
    } else {
      assert (l1 + l2)[..|l1 + l2| - 1] == l1 + l2[..|l2| - 1];
      ResumesConcat(l1, l2[..|l2| - 1], t);
    }
  }

  lemma ResumesOne(e: Event, t: nat)
    ensures Resumes([e], t) == if e.Resumed? && e.task == t then 1 else 0
  {
    assert [e][..0] == [];
  }

  lemma ResumesNone(t: nat)
    ensures Resumes([], t) == 0
  {
  }

  lemma ResumesCall(f: nat, n: nat, log: seq<Event>, v: int, rest: seq<Event>, t: nat)
    ensures Resumes([Called(f, n)] + log, t) == Resumes(log, t)
    ensures Resumes([Called(f, n)] + log + [Resumed(n, f, v)] + rest, t) ==
            Resumes(log, t) + (if t == n then 1 else 0) + Resumes(rest, t)
  {
    ResumesOne(Called(f, n), t);
    ResumesConcat([Called(f, n)], log, t);
    ResumesOne(Resumed(n, f, v), t);
    ResumesConcat([Called(f, n)] + log, [Resumed(n, f, v)], t);
    ResumesConcat([Called(f, n)] + log + [Resumed(n, f, v)], rest, t);
  }

  /** Each awaited task resumes its caller once if it ends, and never before. */
  lemma {:induction false} RestCounts(
    program: Program, f: nat, fr: Frame, n: nat, script: seq<int>, fuel: nat, t: nat)
    ensures var o := Rest(program, f, fr, n, script, fuel);
            && Resumes(o.log, t) <= 1
            && (!(n <= t < n + |o.more|) ==> Resumes(o.log, t) == 0)
            && (o.end.Finished? && n <= t < n + |o.more| ==> Resumes(o.log, t) == 1)
    decreases fuel
  {
    hide Rest, Resumes, Continue;
    RestStops(program, f, fr, n, script, fuel);
    ResumesNone(t);
    if fuel > 0 && Wants(program, fr).Outside? {
      RestOutside(program, f, fr, n, script, fuel);
      if script != [] { RestCounts(program, f, Continue(fr, script[0]), n, script[1..], fuel - 1, t); }
    } else if fuel > 0 && Wants(program, fr).On? {
      var o1 := ChildRest(program, f, fr, n, script, fuel);
      RestCounts(program, n, NewFrame(Wants(program, fr).child, Some(f), false), n + 1, script, fuel - 1, t);
      var v := ValueOf(program, o1.own);
      var o2 := Rest(program, f, Continue(fr, v), n + 1 + |o1.more|, o1.script, fuel - 1);
      ResumesCall(f, n, o1.log, v, o2.log, t);
      if o1.end.Finished? {
        RestOfCaller(program, f, fr, n, script, fuel);
        RestCounts(program, f, Continue(fr, v), n + 1 + |o1.more|, o1.script, fuel - 1, t);
      } else {
        RestInChild(program, f, fr, n, script, fuel);
      }
    }
  }

  /** A resumption in the log is that of a task whose frame holds the value, by the caller that awaits it. */
  ghost predicate Told(more: seq<Frame>, n: nat, e: Event) {
    && !e.HandlerRan?
    && (e.Resumed? ==>
          && n <= e.task < n + |more|
          && more[e.task - n].result == Value(e.value) && more[e.task - n].caller == Some(e.caller))
  }

  lemma {:induction false} RestTells(
    program: Program, f: nat, fr: Frame, n: nat, script: seq<int>, fuel: nat, e: Event)
    requires e in Rest(program, f, fr, n, script, fuel).log
    ensures Told(Rest(program, f, fr, n, script, fuel).more, n, e)
    decreases fuel
  {
    hide Rest;
    RestStops(program, f, fr, n, script, fuel);
    if Wants(program, fr).Outside? {
      RestOutside(program, f, fr, n, script, fuel);
      RestTells(program, f, Continue(fr, script[0]), n, script[1..], fuel - 1, e);
    } else {
      var child, o1 := NewFrame(Wants(program, fr).child, Some(f), false), ChildRest(program, f, fr, n, script, fuel);
      OwnFrame(program, n, child, n + 1, script, fuel - 1);
      var v := ValueOf(program, o1.own);
      if o1.end.Finished? {
        RestOfCaller(program, f, fr, n, script, fuel);
      } else {
        RestInChild(program, f, fr, n, script, fuel);
      }
      if e in o1.log {
        RestTells(program, n, child, n + 1, script, fuel - 1, e);
      } else if e != Called(f, n) && !(e == Resumed(n, f, v) && o1.end.Finished?) {
        RestTells(program, f, Continue(fr, v), n + 1 + |o1.more|, o1.script, fuel - 1, e);
      }
    }
  }

  // ---- Whole runs ----

  function RootRest(program: Program, root: nat, handler: bool, script: seq<int>, fuel: nat): Outcome {
    Rest(program, 0, NewFrame(root, None, handler), 1, script, fuel)
  }

  /** The steps until the root task has ended, waits for a value that does not come, or has used up the fuel. */
  function Total(program: Program, root: nat, handler: bool, script: seq<int>, fuel: nat): nat {
    var o := RootRest(program, root, handler, script, fuel);
    o.steps + if o.end.Finished? then 1 else 0
  }

  function Final(program: Program, root: nat, handler: bool, script: seq<int>, fuel: nat): Machine {
    Exec(Start(program, root, handler, script), Total(program, root, handler, script, fuel))
  }

  function FinalLog(o: Outcome, handler: bool): seq<Event> {
    o.log + if o.end.Finished? && handler then [HandlerRan(0)] else []
  }

  /** The final state, spelled out. */
  lemma FinalState(program: Program, root: nat, handler: bool, script: seq<int>, fuel: nat)
    ensures var o := RootRest(program, root, handler, script, fuel);
            Final(program, root, handler, script, fuel) ==
              Machine(program, [if o.end.Finished? then Returned(program, o.own) else o.own] + o.more,
                      if o.end.Running? then Some(o.at) else None, if o.end.Waiting? then Some(o.at) else None,
                      o.script, FinalLog(o, handler), false)
  {
    var m, o := Start(program, root, handler, script), RootRest(program, root, handler, script, fuel);
    OwnFrame(program, 0, NewFrame(root, None, handler), 1, script, fuel);
    MachineFollows(m, 0, fuel);
    hide Rest, Exec;
    assert m.frames[0 := o.own] == [o.own];
    assert [] + o.log == o.log && o.log + [] == o.log;
    if o.end.Finished? {
      var m1 := Exec(m, o.steps);
      ExecAdd(m, o.steps, 1);
      ExecStep(m1, 0);
      ExecNone(Step(m1));
      assert ([o.own] + o.more)[0 := Returned(program, o.own)] == [Returned(program, o.own)] + o.more;
    }
  }

  /** Nothing runs, and nothing outside will resume it. */
  predicate AtRest(m: Machine) {
    m.current.None? && (m.waiting.None? || m.script == [])
  }

  /** The log of a root task that ran to its end. */
  ghost predicate WellTold(m: Machine, handler: bool) {
    && (forall t | 0 < t < |m.frames| :: Resumes(m.log, t) == 1)
    && (forall e | e in m.log && e.Resumed? ::
          && 0 < e.task < |m.frames|
          && m.frames[e.task].result == Value(e.value) && m.frames[e.task].caller == Some(e.caller))
    && Replay([0], m.log) == Some(if handler then [] else [0])
    && (forall i | 0 <= i < |m.log| :: m.log[i].HandlerRan? <==> handler && i == |m.log| - 1)
  }

  /**
   A task chain behaves like a call.  If the recursive function returns a value, the machine ends with it, after
   two steps for each outside value and each awaited task and one for the root: each awaited task resumed its
   caller exactly once, innermost first, with the value it returned, and the completion handler ran once, at
   the end.
   */
  lemma TaskReturns(program: Program, root: nat, handler: bool, script: seq<int>, fuel: nat)
    requires Call(program, root, [], script, fuel).Returns?
    ensures var a := Call(program, root, [], script, fuel);
            var m := Final(program, root, handler, script, fuel);
            && !m.failed && AtRest(m) && m.waiting == None && m.script == a.rest
            && |m.frames| > 0 && m.frames[0].result == Value(a.value)
            && |a.rest| <= |script|
            && Total(program, root, handler, script, fuel) == 2 * (|script| - |a.rest|) + 2 * (|m.frames| - 1) + 1
    ensures WellTold(Final(program, root, handler, script, fuel), handler)
  {
    var fr, o := NewFrame(root, None, handler), RootRest(program, root, handler, script, fuel);
    var m := Final(program, root, handler, script, fuel);
    hide Rest, Resumes, Final, Call;
    RestIsCall(program, 0, fr, 1, script, fuel);
    StepsOfRest(program, 0, fr, 1, script, fuel);
    FinalState(program, root, handler, script, fuel);
    OwnFrame(program, 0, fr, 1, script, fuel);
    forall t | 0 < t < |m.frames| ensures Resumes(m.log, t) == 1 {
      RestCounts(program, 0, fr, 1, script, fuel, t);
      ResumesConcat(o.log, if handler then [HandlerRan(0)] else [], t);
      ResumesNone(t);
      ResumesOne(HandlerRan(0), t);
    }
    forall e | e in o.log ensures Told(o.more, 1, e) { RestTells(program, 0, fr, 1, script, fuel, e); }
    forall e | e in m.log && e.Resumed?
      ensures 0 < e.task < |m.frames|
      ensures m.frames[e.task].result == Value(e.value) && m.frames[e.task].caller == Some(e.caller)
    {
      assert e in o.log;
    }
    forall i | 0 <= i < |m.log| ensures m.log[i].HandlerRan? <==> handler && i == |m.log| - 1 {
      if i < |o.log| { assert o.log[i] in o.log; }
    }
    RestNested(program, 0, fr, 1, script, fuel, [0]);
    ReplayConcat([0], o.log, if handler then [HandlerRan(0)] else []);
    ReplayOne([0], HandlerRan(0));
    ReplayNone([0]);
  }

  /** If outside values run out, the machine waits for the next one: nothing has returned from the root. */
  lemma TaskWaits(program: Program, root: nat, handler: bool, script: seq<int>, fuel: nat)
    requires Call(program, root, [], script, fuel).NeedsMore?
    ensures var m := Final(program, root, handler, script, fuel);
            && !m.failed && AtRest(m) && m.waiting.Some? && m.script == []
            && |m.frames| > 0 && m.frames[0].result == Empty
            && Replay([0], m.log).Some? && forall e | e in m.log :: !e.HandlerRan?
  {
    var fr, o := NewFrame(root, None, handler), RootRest(program, root, handler, script, fuel);
    hide Rest, Final, Call;
    RestIsCall(program, 0, fr, 1, script, fuel);
    FinalState(program, root, handler, script, fuel);
    OwnFrame(program, 0, fr, 1, script, fuel);
    RestNested(program, 0, fr, 1, script, fuel, [0]);
    assert o.log + [] == o.log;
    forall e | e in o.log ensures !e.HandlerRan? { RestTells(program, 0, fr, 1, script, fuel, e); }
  }

  lemma StepKeeps(m: Machine)
    ensures m.log <= Step(m).log && (m.failed ==> Step(m).failed)
  {
  }

  lemma {:induction false} ExecKeeps(m: Machine, k: nat)
    ensures m.log <= Exec(m, k).log && (m.failed ==> Exec(m, k).failed)
    decreases k
  {
    hide Step;
    if k > 0 {
      StepKeeps(m);
      ExecKeeps(Step(m), k - 1);
    }
  }

  lemma {:induction false} Stays(m: Machine, k: nat)
    requires Step(m) == m
    ensures Exec(m, k) == m
    decreases k
  {
    hide Step;
    if k > 0 { Stays(m, k - 1); }
  }

  lemma AtRestStays(m: Machine)
    requires AtRest(m)
    ensures Step(m) == m
  {
  }

  /** The run is one and the same before and after its last step. */
  lemma BeforeOrAfter(program: Program, root: nat, handler: bool, script: seq<int>, fuel: nat, k: nat)
    requires Call(program, root, [], script, fuel).OutOfFuel? ==> k <= fuel
    ensures var m, end := Exec(Start(program, root, handler, script), k), Final(program, root, handler, script, fuel);
            && m.log <= end.log && !m.failed
            && (AtRest(m) && !Call(program, root, [], script, fuel).OutOfFuel? ==> m == end)
            && (AtRest(m) ==> AtRest(end))
  {
    hide Exec, Rest, Step, Call;
    var fr := NewFrame(root, None, handler);
    var start, total := Start(program, root, handler, script), Total(program, root, handler, script, fuel);
    var m := Exec(start, k);
    RestIsCall(program, 0, fr, 1, script, fuel);
    StepsOfRest(program, 0, fr, 1, script, fuel);
    FinalState(program, root, handler, script, fuel);
    if k <= total {
      ExecAdd(start, k, total - k);
      ExecKeeps(m, total - k);
      if AtRest(m) {
        AtRestStays(m);
        Stays(m, total - k);
      }
    } else {
      ExecAdd(start, total, k - total);
      AtRestStays(Exec(start, total));
      Stays(Exec(start, total), k - total);
    }
  }

  /**
   The machine comes to rest only if the recursive function answers, so it runs on forever exactly when the
   function never answers; and it rests in the state that `TaskReturns` or `TaskWaits` describes.
   */
  lemma RestsOnlyAnswered(program: Program, root: nat, handler: bool, script: seq<int>, k: nat)
    requires AtRest(Exec(Start(program, root, handler, script), k))
    ensures !Call(program, root, [], script, k + 1).OutOfFuel?
    ensures Exec(Start(program, root, handler, script), k) == Final(program, root, handler, script, k + 1)
  {
    hide Exec, Rest, Call, Final;
    BeforeOrAfter(program, root, handler, script, k + 1, k);
    FinalState(program, root, handler, script, k + 1);
    RestIsCall(program, 0, NewFrame(root, None, handler), 1, script, k + 1);
  }

  /** The root task has returned `v` and nothing is left to do. */
  predicate HasReturned(m: Machine, v: int, rest: seq<int>) {
    AtRest(m) && m.waiting.None? && m.script == rest && |m.frames| > 0 && m.frames[0].result == Value(v)
  }

  /** The machine returns a value if and only if the recursive function does, and then the same. */
  lemma SameValue(program: Program, root: nat, handler: bool, script: seq<int>, v: int, rest: seq<int>)
    ensures (exists k: nat :: HasReturned(Exec(Start(program, root, handler, script), k), v, rest)) <==>
              exists fuel: nat :: Call(program, root, [], script, fuel) == Returns(v, rest)
  {
    hide Exec, Call, Final, Total, WellTold;
    var start := Start(program, root, handler, script);
    if k: nat :| HasReturned(Exec(start, k), v, rest) {
      RestsOnlyAnswered(program, root, handler, script, k);
      if Call(program, root, [], script, k + 1).NeedsMore? {
        TaskWaits(program, root, handler, script, k + 1);
      } else {
        TaskReturns(program, root, handler, script, k + 1);
      }
      assert Call(program, root, [], script, k + 1) == Returns(v, rest);
    }
    if fuel: nat :| Call(program, root, [], script, fuel) == Returns(v, rest) {
      TaskReturns(program, root, handler, script, fuel);
      FinalIsExec(program, root, handler, script, fuel);
      assert HasReturned(Exec(start, Total(program, root, handler, script, fuel)), v, rest);
    }
  }

  lemma FinalIsExec(program: Program, root: nat, handler: bool, script: seq<int>, fuel: nat)
    ensures Final(program, root, handler, script, fuel) ==
            Exec(Start(program, root, handler, script), Total(program, root, handler, script, fuel))
  {
  }

  /**
   After any number of steps, of any program: `await_resume` never lacked its value, tasks that ended were the
   innermost, and no task resumed its caller twice.
   */
  lemma AtAnyTime(program: Program, root: nat, handler: bool, script: seq<int>, k: nat)
    ensures var m := Exec(Start(program, root, handler, script), k);
            && !m.failed
            && Replay([0], m.log).Some? && forall t: nat :: Resumes(m.log, t) <= 1
  {
    hide Exec, Rest, Step, Resumes, Replay, Call, Final;
    var fr, o := NewFrame(root, None, handler), RootRest(program, root, handler, script, k);
    var m, end := Exec(Start(program, root, handler, script), k), Final(program, root, handler, script, k);
    BeforeOrAfter(program, root, handler, script, k, k);
    FinalState(program, root, handler, script, k);
    assert o.log + [] == o.log;
    var rest := end.log[|m.log|..];
    assert end.log == m.log + rest;
    RestNested(program, 0, fr, 1, script, k, [0]);
    ReplayConcat([0], o.log, if o.end.Finished? && handler then [HandlerRan(0)] else []);
    ReplayOne([0], HandlerRan(0));
    ReplayNone([0]);
    ReplayConcat([0], m.log, rest);
    forall t: nat ensures Resumes(m.log, t) <= 1 {
      RestCounts(program, 0, fr, 1, script, k, t);
      ResumesConcat(o.log, if o.end.Finished? && handler then [HandlerRan(0)] else [], t);
      ResumesNone(t);
      ResumesOne(HandlerRan(0), t);
      ResumesConcat(m.log, rest, t);
    }
  }
}
