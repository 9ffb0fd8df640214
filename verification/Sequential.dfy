/** A request served alone is a run of the machine, so the claims about runs hold of the methods. */
module Sequential {
  import opened Basics
  import opened Images
  import opened Device
  import opened Durability
  import opened Threads
  import opened Runs
  import opened Volumes

  lemma RunSteps(g: Setup, s: Threads.State, first: Step, more: seq<Step>)
    requires WellFormed(g, s) && Enabled(s, first) && Runnable(g, Next(g, s, first), more)
    ensures Runnable(g, s, [first] + more) && Run(g, s, [first] + more) == Run(g, Next(g, s, first), more)
  {
    assert ([first] + more)[1..] == more;
  }

  /** From inside the critical section, the calls that finish it. */
  lemma {:induction false} FinishIsRun(g: Setup, s: Threads.State, plan: Plan) returns (steps: seq<Step>)
    requires WellFormed(g, s) && !s.core.poisoned
    ensures Runnable(g, s, steps) && Run(g, s, steps).core == Finish(g, s.core, plan).0
    decreases Left(plan), Rank(s.core.lock), ToMove(s.core.lock)
  {
    hide Call, Calms, Take, Rest, Left;
    LeftRest(plan);
    if s.core.lock.Free? {
      return [];
    }
    var a := Take(plan);
    var r := Next(g, s, Os(a));
    CallReady(g, s.core, a);
    CallEffect(g, s.core, a);
    FinishStep(g, s.core, plan);
    CallAdvances(g, s.core, a);
    if r.core.lock.Free? {
      FinishFree(g, r.core, Rest(plan));
      RunSteps(g, s, Os(a), []);
      return [Os(a)];
    }
    var more := FinishIsRun(g, r, Rest(plan));
    RunSteps(g, s, Os(a), more);
    steps := [Os(a)] + more;
  }

  /**
   What the methods of a session compute is what the machine does when one callback runs
   by itself: the same file, the same flags, the same history.
   */
  lemma SoloIsRun(g: Setup, init: seq<Byte>, s: Threads.State, t: nat, req: Request,
      plan: Plan) returns (steps: seq<Step>)
    requires Sane(g, init, s) && s.core.lock.Free?
    requires t != MAIN && t !in s.threads && Dispatching(s.main)
    ensures Ready(g, s.core) && Runnable(g, s, steps)
    ensures Run(g, s, steps).core == Solo(g, s.core, s.stopping, t, req, plan).0
  {
    hide Sane, Inv, Finish, Acquire, Runnable, Run;
    SaneReady(g, init, s);
    var s1 := Next(g, s, Enter(t, req));
    NextSane(g, init, s, Enter(t, req));
    SaneReady(g, init, s1);
    var s2 := Next(g, s1, Check(t));
    RunNothing(g, s2);
    if Refusal(g, s.stopping, req).Some? {
      NextSane(g, init, s1, Check(t));
      SaneReady(g, init, s2);
      RunSteps(g, s1, Check(t), []);
      RunSteps(g, s, Enter(t, req), [Check(t)] + []);
      return [Enter(t, req)] + ([Check(t)] + []);
    }
    NextSane(g, init, s1, Check(t));
    SaneReady(g, init, s2);
    var s3 := Next(g, s2, Lock(t));
    NextSane(g, init, s2, Lock(t));
    SaneReady(g, init, s3);
    var more := LockedRun(g, init, s2, t, plan);
    RunSteps(g, s1, Check(t), [Lock(t)] + more);
    RunSteps(g, s, Enter(t, req), [Check(t)] + ([Lock(t)] + more));
    steps := [Enter(t, req)] + ([Check(t)] + ([Lock(t)] + more));
  }

  lemma LockedRun(g: Setup, init: seq<Byte>, s: Threads.State, t: nat, plan: Plan) returns (more: seq<Step>)
    requires Sane(g, init, s) && Enabled(s, Lock(t)) && Ready(g, s.core)
    ensures Ready(g, Acquire(g, s.core, t, s.threads[t].req))
    ensures Runnable(g, s, [Lock(t)] + more)
    ensures Run(g, s, [Lock(t)] + more).core == Finish(g, Acquire(g, s.core, t, s.threads[t].req), plan).0
  {
    hide Sane, Inv, Finish, Acquire, Runnable, Run;
    var r := Next(g, s, Lock(t));
    NextSane(g, init, s, Lock(t));
    SaneReady(g, init, r);
    if r.core.lock.Free? {
      FinishFree(g, r.core, plan);
      RunNothing(g, r);
      more := [];
    } else {
      more := FinishIsRun(g, r, plan);
    }
    RunSteps(g, s, Lock(t), more);
  }

  lemma SaneReady(g: Setup, init: seq<Byte>, s: Threads.State)
    requires Sane(g, init, s)
    ensures WellFormed(g, s) && Ready(g, s.core) && (s.core.lock.Held? ==> !s.core.poisoned)
  {
    InvReady(g, init, s.core);
  }

  lemma RunNothing(g: Setup, s: Threads.State)
    ensures Runnable(g, s, []) && Run(g, s, []) == s
  {
  }
}
