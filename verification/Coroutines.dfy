/**
 The machine of module `TaskChain` in the form of the code: promise fields and coroutine handles updated in place.
 */
module Coroutines {
  import opened Options
  import opened TaskChain
  import opened TaskTheory

  lemma FinalRests(program: Program, root: nat, handler: bool, values: seq<int>, fuel: nat)
    requires !Call(program, root, [], values, fuel).OutOfFuel?
    ensures AtRest(Final(program, root, handler, values, fuel))
  {
    hide Exec, Rest, Call;
    FinalState(program, root, handler, values, fuel);
    RestIsCall(program, 0, NewFrame(root, None, handler), 1, values, fuel);
  }

  class Coroutines {
    const program: Program
    var frames: seq<Frame>
    var current: Option<nat>
    var waiting: Option<nat>
    var script: seq<int>
    var log: seq<Event>
    var failed: bool

    ghost function View(): Machine
      reads this
    {
      Machine(program, frames, current, waiting, script, log, failed)
    }

    constructor (program: Program, root: nat, completionHandler: bool, script: seq<int>)
      ensures this.program == program && View() == Start(program, root, completionHandler, script)
    {
      this.program := program;
      frames, current, waiting := [NewFrame(root, None, completionHandler)], Some(0), None;
      this.script, log, failed := script, [], false;
    }

    /** `co_await child`: set the child's `caller_coro` and resume the child. */
    method DoAwaitSuspend(f: nat, child: nat)
      requires f < |frames|
      modifies this
      ensures View() == AwaitSuspend(old(View()), f, child)
    {
      var n := |frames|;
      frames := frames[f := frames[f].(awaiting := Some(n))] + [NewFrame(child, Some(f), false)];
      log := log + [Called(f, n)];
      current := Some(n);
    }

    /** The resumed caller's `await_resume`; without a value it throws. */
    method DoAwaitResume(c: nat)
      modifies this
      ensures View() == AwaitResume(old(View()), c)
    {
      current := None;
      if c >= |frames| || frames[c].awaiting.None? || frames[c].awaiting.value >= |frames| {
        failed := true;
        return;
      }
      var t := frames[c].awaiting.value;
      match frames[t].result {
        case Value(v) =>
          frames := frames[c := Continue(frames[c], v)];
          log := log + [Resumed(t, c, v)];
          current := Some(c);
        case Empty => failed := true;
        case Exception => failed := true;
      }
    }

    /** `return_value`, then `final_suspend`. */
    method ReturnAndSuspend(f: nat, v: int)
      requires f < |frames|
      modifies this
      ensures var m := old(View());
              View() == FinalSuspend(m.(frames := m.frames[f := m.frames[f].(result := Value(v))]), f)
    {
      frames := frames[f := frames[f].(result := Value(v))];
      match frames[f].caller {
        case Some(c) => DoAwaitResume(c);
        case None =>
          current := None;
          if frames[f].handler { log := log + [HandlerRan(f)]; }
      }
    }

    method StepOnce()
      modifies this
      ensures View() == Step(old(View()))
    {
      match current {
        case None =>
          if waiting.Some? && waiting.value < |frames| && script != [] {
            var w := waiting.value;
            frames := frames[w := Continue(frames[w], script[0])];
            current, waiting, script := Some(w), None, script[1..];
          }
        case Some(f) =>
          if f < |frames| {
            match program(frames[f].body, frames[f].vals) {
              case Outside => current, waiting := None, Some(f);
              case On(child) => DoAwaitSuspend(f, child);
              case Return(v) => ReturnAndSuspend(f, v);
            }
          }
      }
    }

    /**
     Run as long as some coroutine runs or an outside value is there; it ends where the theory says.  A program
     whose recursive reading never answers does not end here either.
     */
    method Run(ghost root: nat, ghost handler: bool, ghost values: seq<int>, ghost fuel: nat)
      requires View() == Start(program, root, handler, values)
      requires !Call(program, root, [], values, fuel).OutOfFuel?
      modifies this
      ensures View() == Final(program, root, handler, values, fuel)
    {
      hide Exec, Rest, Step, Call;
      ghost var start := Start(program, root, handler, values);
      ghost var k, total := 0, Total(program, root, handler, values, fuel);
      ExecNone(start);
      FinalRests(program, root, handler, values, fuel);
      while current.Some? || (waiting.Some? && script != [])
        invariant k <= total && View() == Exec(start, k)
        decreases total - k
      {
        ExecAdd(start, k, 1);
        ExecStep(View(), 0);
        ExecNone(Step(View()));
        StepOnce();
        k := k + 1;
      }
      ExecAdd(start, k, total - k);
      AtRestStays(View());
      Stays(View(), total - k);
    }
  }
}
