/** A healthy session at rest can always be shut down cleanly: the claims about clean shutdowns are not empty. */
module Closings {
  import opened Basics
  import opened Images
  import opened Device
  import opened Threads
  import opened Runs
  import opened Sequential

  lemma {:induction false} RunConcat(g: Setup, s: State, a: seq<Step>, b: seq<Step>)
    requires Runnable(g, s, a) && Runnable(g, Run(g, s, a), b)
    ensures Runnable(g, s, a + b) && Run(g, s, a + b) == Run(g, Run(g, s, a), b)
    decreases |a|
  {
    hide Enabled, Next;
    if a == [] {
      assert a + b == b;
    } else {
      RunConcat(g, Next(g, s, a[0]), a[1..], b);
      assert (a + b)[1..] == a[1..] + b;
    }
  }

  lemma OneStep(g: Setup, s: State, step: Step)
    requires WellFormed(g, s) && Enabled(s, step)
    ensures Runnable(g, s, [step]) && Run(g, s, [step]) == Next(g, s, step)
  {
    hide Enabled, Next;
    assert [step][1..] == [];
  }

  /** Two runs in a row, of which the second is one step. */
  lemma Then(g: Setup, s: State, a: seq<Step>, step: Step)
    requires Runnable(g, s, a) && WellFormed(g, Run(g, s, a)) && Enabled(Run(g, s, a), step)
    ensures Runnable(g, s, a + [step]) && Run(g, s, a + [step]) == Next(g, Run(g, s, a), step)
  {
    hide Enabled, Next;
    OneStep(g, Run(g, s, a), step);
    RunConcat(g, s, a, [step]);
  }

  /** Nobody inside, nobody entering, nothing wrong. */
  ghost predicate Quiet(g: Setup, s: State) {
    && WellFormed(g, s) && s.core.lock.Free? && !s.core.faulted && !s.core.poisoned
    && s.threads == map[] && s.main.Serving?
  }

  /** The final flush, with calls that go well. */
  lemma FlushRun(g: Setup, s: State) returns (steps: seq<Step>)
    requires Quiet(g, s)
    ensures Runnable(g, s, steps)
    ensures var r := Run(g, s, steps);
      && WellFormed(g, r) && r.core.lock.Free? && !r.core.faulted && !r.core.poisoned
      && r.threads == map[] && r.main.Flushing? && !LastFailed(r.core.log, MAIN)
  {
    hide Runnable, Run, Call, Acquire, Ready;
    steps := [StartFlush];
    OneStep(g, s, StartFlush);
    InvokeReady(g, s.core, MAIN, Flush);
    var s1 := Run(g, s, steps);
    FlushEnters(g, s1.core);
    Then(g, s, steps, Lock(MAIN));
    steps := steps + [Lock(MAIN)];
    var s2 := Run(g, s, steps);
    FlushCalls(g, s2.core);
    Then(g, s, steps, Os(Whole));
    steps := steps + [Os(Whole)];
    var s3 := Run(g, s, steps);
    if g.mode.ReadWriteMode? {
      FlushCalls(g, s3.core);
      Then(g, s, steps, Os(Whole));
      steps := steps + [Os(Whole)];
    }
    assert Run(g, s, steps).threads == map[];
  }

  lemma InvokeReady(g: Setup, c: Core, t: nat, req: Request)
    requires Ready(g, c)
    ensures Ready(g, Invoke(c, t, req))
  {
  }

  lemma FlushEnters(g: Setup, c: Core)
    requires Ready(g, c) && c.lock.Free? && !c.faulted && !c.poisoned
    ensures Acquire(g, c, MAIN, Flush) == c.(lock := Held(MAIN, Flush, StatSync))
      && Ready(g, Acquire(g, c, MAIN, Flush))
  {
    AcquireReady(g, c, MAIN, Flush);
  }

  /** One good call of the final flush: on to the sync itself, or out with success. */
  lemma FlushCalls(g: Setup, c: Core)
    requires Ready(g, c) && !c.faulted && !c.poisoned
    requires c.lock == Held(MAIN, Flush, StatSync) || c.lock == Held(MAIN, Flush, Syncing)
    ensures var r := Call(g, c, Whole);
      && Ready(g, r) && !r.faulted && !r.poisoned
      && (if c.lock.phase.StatSync? && g.mode.ReadWriteMode? then r.lock == Held(MAIN, Flush, Syncing)
          else r.lock == Free && r.log == c.log + [Returned(MAIN, Flush, Ok([]))])
  {
    hide Synced;
    CallReady(g, c, Whole);
  }

  /** From every healthy session at rest some steps lead to a shutdown that reports no failure. */
  lemma CleanShutdownReachable(g: Setup, file: seq<Byte>, steps: seq<Step>) returns (more: seq<Step>)
    requires Session(g, file, steps) && Quiet(g, After(g, file, steps))
    ensures Session(g, file, steps + more)
    ensures After(g, file, steps + more).main == Closed(false, false, 0)
  {
    hide Runnable, Run, Ready;
    var s := After(g, file, steps);
    more := FlushRun(g, s);
    Then(g, s, more, EndFlush);
    more := more + [EndFlush];
    Then(g, s, more, Stop);
    more := more + [Stop];
    Then(g, s, more, QueryBefore(0));
    more := more + [QueryBefore(0)];
    Then(g, s, more, Wait(0));
    more := more + [Wait(0)];
    Then(g, s, more, Sample);
    more := more + [Sample];
    RunConcat(g, Initial(file), steps, more);
  }
}
