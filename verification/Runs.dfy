/** The claims about whole runs: every interleaving, every fault, a crash after any step. */
module Runs {
  import opened Basics
  import opened Images
  import opened Device
  import opened Durability
  import opened Threads

  /** A sequence of steps each of which can be taken where it stands. */
  ghost predicate Runnable(g: Setup, s: State, steps: seq<Step>)
    decreases |steps|
  {
    steps == [] || (WellFormed(g, s) && Enabled(s, steps[0]) && Runnable(g, Next(g, s, steps[0]), steps[1..]))
  }

  ghost function Run(g: Setup, s: State, steps: seq<Step>): State
    requires Runnable(g, s, steps)
    decreases |steps|
  {
    if steps == [] then s else Run(g, Next(g, s, steps[0]), steps[1..])
  }

  lemma {:induction false} RunSane(g: Setup, init: seq<Byte>, s: State, steps: seq<Step>)
    requires Sane(g, init, s) && Runnable(g, s, steps)
    ensures Sane(g, init, Run(g, s, steps))
    decreases |steps|
  {
    hide Sane, Enabled, Next;
    if steps != [] {
      NextSane(g, init, s, steps[0]);
      RunSane(g, init, Next(g, s, steps[0]), steps[1..]);
    }
  }

  /** A session begins on file `file` and takes `steps`. */
  ghost predicate Session(g: Setup, file: seq<Byte>, steps: seq<Step>) {
    Fits(g) && |file| == g.fileLen && Runnable(g, Initial(file), steps)
  }

  ghost function After(g: Setup, file: seq<Byte>, steps: seq<Step>): State
    requires Session(g, file, steps)
  {
    Run(g, Initial(file), steps)
  }

  lemma AfterSane(g: Setup, file: seq<Byte>, steps: seq<Step>)
    requires Session(g, file, steps)
    ensures Sane(g, file, After(g, file, steps))
    ensures Inv(g, file, After(g, file, steps).core) && AllBracketed(After(g, file, steps).core.log)
  {
    hide Sane, Next, Enabled, Runnable;
    InitialSane(g, file);
    RunSane(g, file, Initial(file), steps);
    SaneInv(g, file, After(g, file, steps));
  }

  lemma SaneInv(g: Setup, file: seq<Byte>, s: State)
    requires Sane(g, file, s)
    ensures Inv(g, file, s.core) && AllBracketed(s.core.log)
  {
  }

  /**
   Acknowledged writes are durable. Stop the machine after any step of any run and take
   any file the crash can leave: its payload decrypts to the initial plaintext with every
   acknowledged write laid over it, except inside one write that began and was not
   acknowledged. There is at most one such write in the whole session, and nothing
   outside the payload has moved.
   */
  lemma CrashDurability(g: Setup, file: seq<Byte>, steps: seq<Step>, survivor: seq<Byte>)
    requires Session(g, file, steps) && Survives(After(g, file, steps).core.disk, survivor)
    ensures SameFrame(g, file, survivor) && SameFrame(g, file, After(g, file, steps).core.disk.visible)
    ensures var log := After(g, file, steps).core.log;
      && AcksFit(g.length, log)
      && Unacknowledged(log) == (if Suspect(log).Some? then 1 else 0)
      && (match Suspect(log)
          case None => Plain(g, survivor) == Overlay(Plain(g, file), log)
          case Some(x) => Outside(Plain(g, survivor), Overlay(Plain(g, file), log), x))
  {
    hide Sane, Next, Enabled, Runnable, Plain;
    AfterSane(g, file, steps);
    CrashKeepsAcknowledged(g, file, After(g, file, steps).core, survivor);
  }

  /**
   Callbacks look sequential. In every run, however the threads interleave, each read that
   succeeded returned the slice of the plain array made of exactly the writes acknowledged
   before it in the order the lock was given out, and a session at rest holds that array.
   Each answer falls inside the call it answers: it is given to the one request its thread
   has open.
   */
  lemma Linearizable(g: Setup, file: seq<Byte>, steps: seq<Step>)
    requires Session(g, file, steps)
    ensures var c := After(g, file, steps).core;
      && AnswersAgree(Plain(g, file), c.log) && AcksFit(g.length, c.log) && AllBracketed(c.log)
      && (c.lock.Free? && !c.faulted && !c.poisoned ==>
        |c.disk.visible| == g.fileLen && Plain(g, c.disk.visible) == Overlay(Plain(g, file), c.log))
  {
    hide Sane, Next, Enabled, Runnable, Plain, Overlay, Suspect, AcksFit;
    AfterSane(g, file, steps);
    AgreeingAcksFit(Plain(g, file), After(g, file, steps).core.log);
  }

  // ---- sticky failure ----

  ghost predicate Failed(c: Core) {
    c.faulted || c.poisoned
  }

  /** Only errors were logged since. */
  ghost predicate OnlyErrors(before: seq<Event>, after: seq<Event>) {
    && before <= after
    && forall k :: |before| <= k < |after| ==> after[k].Invoked? || (after[k].Returned? && after[k].result.Err?)
  }

  lemma StickyStep(g: Setup, s: State, step: Step)
    requires WellFormed(g, s) && Enabled(s, step) && Failed(s.core) && s.core.lock.Free?
    ensures var r := Next(g, s, step).core;
      Failed(r) && r.lock.Free? && r.disk == s.core.disk && OnlyErrors(s.core.log, r.log)
      && (s.core.faulted ==> r.faulted) && (s.core.poisoned ==> r.poisoned)
  {
  }

  /**
   Failure is sticky. From a failed session whose lock is free, every continuation of every
   run makes no operating-system call and leaves the file as it is, answers every request
   with an error, empty ones included, and never clears the failure.
   */
  lemma {:induction false} FailureIsSticky(g: Setup, s: State, steps: seq<Step>)
    requires Runnable(g, s, steps) && Failed(s.core) && s.core.lock.Free?
    ensures var r := Run(g, s, steps).core;
      Failed(r) && r.lock.Free? && r.disk == s.core.disk && OnlyErrors(s.core.log, r.log)
      && (s.core.faulted ==> r.faulted) && (s.core.poisoned ==> r.poisoned)
    ensures forall i :: 0 <= i < |steps| ==> !steps[i].Os?
    decreases |steps|
  {
    hide Next;
    if steps != [] {
      StickyStep(g, s, steps[0]);
      FailureIsSticky(g, Next(g, s, steps[0]), steps[1..]);
    }
  }

  /** Since then only errors were answered, but for the holder of the lock, which may have begun its write. */
  ghost predicate Meanwhile(before: seq<Event>, after: seq<Event>, holder: nat) {
    && before <= after
    && forall k :: |before| <= k < |after| ==>
         after[k].Invoked? || (after[k].Returned? && after[k].result.Err?)
           || (after[k].Began? && after[k].tid == holder)
  }

  /** The holder of the lock left with event `cut`, and only errors came after it. */
  ghost predicate LeftAt(before: seq<Event>, after: seq<Event>, holder: nat, req: Request, cut: nat) {
    && |before| <= cut < |after|
    && Meanwhile(before, after[..cut], holder)
    && (after[cut].Returned? || after[cut].Unwound?) && after[cut].tid == holder && after[cut].req == req
    && OnlyErrors(after[..cut + 1], after)
  }

  lemma HeldStep(g: Setup, s: State, step: Step)
    requires WellFormed(g, s) && Enabled(s, step) && s.core.lock.Held? && Failed(s.core)
    ensures var r, t, req, log := Next(g, s, step).core, s.core.lock.tid, s.core.lock.req, s.core.log;
      && Failed(r) && log <= r.log
      && (r.lock.Held? ==> r.lock.tid == t && r.lock.req == req && Meanwhile(log, r.log, t))
      && (r.lock.Free? ==>
            |r.log| == |log| + 1 && (r.log[|log|].Returned? || r.log[|log|].Unwound?) && r.log[|log|].tid == t
              && r.log[|log|].req == req)
  {
    hide Call, Refusal;
    if step.Os? {
      CallLogs(g, s.core, step.a);
      CallKeepsFailure(g, s.core, step.a);
    }
  }

  lemma CallKeepsFailure(g: Setup, c: Core, a: Action)
    requires Ready(g, c) && c.lock.Held? && Failed(c)
    ensures Failed(Call(g, c, a))
  {
    hide TurnOf;
  }

  lemma MeanwhileLeft(a: seq<Event>, b: seq<Event>, c: seq<Event>, t: nat, req: Request, cut: nat)
    requires Meanwhile(a, b, t) && LeftAt(b, c, t, req, cut)
    ensures LeftAt(a, c, t, req, cut)
  {
    assert b <= c[..cut];
    forall k | |a| <= k < cut
      ensures c[k].Invoked? || (c[k].Returned? && c[k].result.Err?) || (c[k].Began? && c[k].tid == t)
    {
      assert c[..cut][k] == c[k];
      if k < |b| {
        assert b[k] == c[k];
      }
    }
  }

  /**
   A failure that strikes while a request is inside the critical section, set by another
   thread, leaves that one request alone: it is the only one that may still reach the file
   or succeed. Once it has left, the failure is sticky.
   */
  lemma {:induction false} HolderMayFinish(g: Setup, s: State, steps: seq<Step>)
    requires Runnable(g, s, steps) && Failed(s.core) && s.core.lock.Held?
    ensures var r, t, req, log := Run(g, s, steps).core, s.core.lock.tid, s.core.lock.req, s.core.log;
      && Failed(r)
      && (r.lock.Held? ==> r.lock.tid == t && r.lock.req == req && Meanwhile(log, r.log, t))
      && (r.lock.Free? ==> exists cut :: LeftAt(log, r.log, t, req, cut))
    decreases |steps|
  {
    hide Next, Enabled, Meanwhile, LeftAt, OnlyErrors;
    if steps == [] {
      NothingMeanwhile(s.core.log, s.core.lock.tid);
    } else {
      var n := Next(g, s, steps[0]);
      var t, req, log, end := s.core.lock.tid, s.core.lock.req, s.core.log, Run(g, s, steps).core.log;
      HeldStep(g, s, steps[0]);
      if n.core.lock.Held? {
        HolderMayFinish(g, n, steps[1..]);
        if Run(g, s, steps).core.lock.Held? {
          MeanwhileTwice(log, n.core.log, end, t);
        } else {
          var cut :| LeftAt(n.core.log, end, t, req, cut);
          MeanwhileLeft(log, n.core.log, end, t, req, cut);
        }
      } else {
        FailureIsSticky(g, n, steps[1..]);
        JustLeft(log, n.core.log, end, t, req);
      }
    }
  }

  lemma NothingMeanwhile(log: seq<Event>, t: nat)
    ensures Meanwhile(log, log, t)
  {
  }

  lemma MeanwhileTwice(a: seq<Event>, b: seq<Event>, c: seq<Event>, t: nat)
    requires Meanwhile(a, b, t) && Meanwhile(b, c, t)
    ensures Meanwhile(a, c, t)
  {
    forall k | |a| <= k < |b| ensures c[k] == b[k] {
    }
  }

  lemma JustLeft(a: seq<Event>, b: seq<Event>, c: seq<Event>, t: nat, req: Request)
    requires a <= b && |b| == |a| + 1 && (b[|a|].Returned? || b[|a|].Unwound?) && b[|a|].tid == t && b[|a|].req == req
    requires OnlyErrors(b, c)
    ensures LeftAt(a, c, t, req, |a|)
  {
    assert c[..|a|] == a && c[..|a| + 1] == b;
  }

  // ---- the verdict of a shutdown ----

  /**
   Drain before verdict. When shutdown reports no failure, in any run: no callback is
   inside and none can enter any more, nothing ever panicked, the session is not faulted,
   the final flush succeeded and the transport reported no error. Every write that ever
   began was acknowledged, and every file a crash can leave decrypts to exactly the
   initial plaintext with those writes laid over it.
   */
  lemma CleanShutdown(g: Setup, file: seq<Byte>, steps: seq<Step>, survivor: seq<Byte>)
    requires Session(g, file, steps)
    requires After(g, file, steps).main.Closed? && !After(g, file, steps).main.verdict
    requires Survives(After(g, file, steps).core.disk, survivor)
    ensures var s := After(g, file, steps);
      && s.threads == map[] && s.core.lock.Free? && !s.core.faulted && !s.core.poisoned
      && !s.main.failed && s.main.transport == 0
      && (forall k :: 0 <= k < |s.core.log| ==> !s.core.log[k].Unwound?)
      && Unacknowledged(s.core.log) == 0 && AcksFit(g.length, s.core.log)
    ensures forall step :: !Enabled(After(g, file, steps), step)
    ensures SameFrame(g, file, survivor)
    ensures Plain(g, survivor) == Overlay(Plain(g, file), After(g, file, steps).core.log)
  {
    hide Next, Runnable, Plain, Overlay, Suspect, Unacknowledged, Settled, SameFrame, AnswersAgree;
    AfterSane(g, file, steps);
    var s := After(g, file, steps);
    assert Sane(g, file, s);
    assert s.core.lock.Free? && Suspect(s.core.log).None?;
    CrashKeepsAcknowledged(g, file, s.core, survivor);
  }
}
