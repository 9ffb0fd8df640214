/**
 One request served with nobody else inside: `Solo` takes the machine of module Device from
 the entry of the request to its answer. The transfers of the image are its stretches, so
 the methods of module Session can be held against it.
 */
module Volumes {
  import opened Basics
  import opened Images
  import opened Device

  function Rank(l: Lock): nat {
    match l
    case Free => 0
    case Held(_, _, phase) =>
      match phase
      case Syncing => 1
      case StatSync => 2
      case Writing(_) => 3
      case StatWrite => 4
      case Reading(_) => 1
      case StatRead => 2
  }

  /** What a transfer has still to move. */
  function ToMove(l: Lock): int {
    if l.Free? then 0
    else if l.phase.Reading? && l.req.Read? then Span(l.req) - |l.phase.got|
    else if l.phase.Writing? && l.req.Write? then |l.req.data| - l.phase.done
    else 0
  }

  /** A call that is not interrupted brings the critical section nearer to its end. */
  lemma CallAdvances(g: Setup, c: Core, a: Action)
    requires Ready(g, c) && c.lock.Held?
    ensures 0 <= ToMove(c.lock)
    ensures var l := Call(g, c, a).lock;
      a.Interrupted? || Rank(l) < Rank(c.lock) || (Rank(l) == Rank(c.lock) && ToMove(l) < ToMove(c.lock))
  {
    hide Put, Synced, Answer, Buffer, Span;
    if c.lock.req.Read? {
      ReadFits(g, c.lock.req);
    }
  }

  /** The rest of the critical section, alone, under the answers of `plan`. */
  ghost function Finish(g: Setup, c: Core, plan: Plan): (r: (Core, Plan))
    requires Ready(g, c)
    ensures r.0.lock.Free? && Ready(g, r.0)
    decreases Left(plan), Rank(c.lock), ToMove(c.lock)
  {
    hide Calms, Take, Rest, Left;
    if c.lock.Free? then (c, plan)
    else
      LeftRest(plan);
      CallReady(g, c, Take(plan));
      CallAdvances(g, c, Take(plan));
      Finish(g, Call(g, c, Take(plan)), Rest(plan))
  }

  lemma FinishStep(g: Setup, c: Core, plan: Plan)
    requires Ready(g, c) && c.lock.Held?
    ensures Ready(g, Call(g, c, Take(plan))) && Finish(g, c, plan) == Finish(g, Call(g, c, Take(plan)), Rest(plan))
  {
    CallReady(g, c, Take(plan));
  }

  lemma FinishFree(g: Setup, c: Core, plan: Plan)
    requires Ready(g, c) && c.lock.Free?
    ensures Finish(g, c, plan) == (c, plan)
  {
  }

  /** One request served with nobody else inside. */
  ghost function Solo(g: Setup, c: Core, stopping: bool, t: nat, req: Request, plan: Plan): (r: (Core, Plan))
    requires Ready(g, c) && c.lock.Free?
    ensures r.0.lock.Free? && Ready(g, r.0)
  {
    var c := Invoke(c, t, req);
    match Refusal(g, stopping, req)
    case Some(e) => (Refused(c, t, req, e), plan)
    case None => AcquireReady(g, c, t, req); Finish(g, Acquire(g, c, t, req), plan)
  }

  /** The result a caller sees is the last event of its run. */
  predicate Answers(log: seq<Event>, e: Ended<seq<Byte>>) {
    log != [] &&
    match log[|log| - 1]
    case Returned(_, _, result) => e == Done(result)
    case Unwound(_, _) => e == Panicked
    case _ => false
  }

  // ---- the loops of the image are the calls of the critical section ----

  /** The write loop, then whatever follows it. */
  lemma {:induction false} FinishWriting(g: Setup, c: Core, plan: Plan)
    requires Ready(g, c) && c.lock.Held? && c.lock.phase.Writing?
    ensures var t, req := c.lock.tid, c.lock.req;
      var at := g.offset + req.offset;
      var w := WriteRun(c.disk, at, Buffer(g, req), c.lock.phase.done, plan);
      match w.end
      case Panicked => Finish(g, c, plan) == (Unwind(c.(disk := w.disk), t, req), w.plan)
      case Done(Err(_)) => Finish(g, c, plan) == (FailSticky(c.(disk := w.disk), t, req), w.plan)
      case Done(Ok(_)) =>
        && Ready(g, c.(disk := w.disk, lock := Held(t, req, StatSync)))
        && Finish(g, c, plan) == Finish(g, c.(disk := w.disk, lock := Held(t, req, StatSync)), w.plan)
    decreases Left(plan), |c.lock.req.data| - c.lock.phase.done
  {
    hide Calms, Take, Rest, Left, Finish, Put, Buffer, Ready;
    LeftRest(plan);
    ReadyIs(g, c);
    var t, req, done := c.lock.tid, c.lock.req, c.lock.phase.done;
    var a := Take(plan);
    var m, r := Amount(a, |req.data| - done), Call(g, c, a);
    FinishStep(g, c, plan);
    if a.Interrupted? {
      FinishWriting(g, c, Rest(plan));
    } else if r.lock.Free? {
      FinishFree(g, r, Rest(plan));
    } else if done + m < |req.data| {
      FinishWriting(g, r, Rest(plan));
    }
  }

  lemma ReadyIs(g: Setup, c: Core)
    requires Ready(g, c)
    ensures Fits(g) && Shaped(c.disk) && |c.disk.visible| == g.fileLen && HeldOk(g, c)
  {
  }

  lemma FinishSync(g: Setup, c: Core, plan: Plan)
    requires Ready(g, c) && c.lock.Held? && c.lock.phase.StatSync?
    ensures var t, req, s := c.lock.tid, c.lock.req, SyncRun(g.mode, c.disk, plan);
      Finish(g, c, plan) ==
      match s.end
      case Panicked => (Unwind(c.(disk := s.disk), t, req), s.plan)
      case Done(Err(_)) => (FailSticky(c.(disk := s.disk), t, req), s.plan)
      case Done(Ok(_)) => (Return(c.(disk := s.disk), t, req, Ok([])), s.plan)
  {
    hide Calms, Take, Rest, Left, Finish, Synced, SyncLost, Ready;
    ReadyIs(g, c);
    FinishStep(g, c, plan);
    var r := Call(g, c, Take(plan));
    if r.lock.Free? {
      FinishFree(g, r, Rest(plan));
    } else {
      ReadyIs(g, r);
      FinishStep(g, r, Rest(plan));
      FinishFree(g, Call(g, r, Take(Rest(plan))), Rest(Rest(plan)));
    }
  }

  /** A write from its first call to its answer. */
  lemma FinishWrite(g: Setup, c: Core, plan: Plan)
    requires Ready(g, c) && c.lock.Held? && c.lock.phase.StatWrite?
    ensures var t, req := c.lock.tid, c.lock.req;
      var w := WriteAll(g.fileLen, g.mode, c.disk, g.offset + req.offset, Buffer(g, req), plan);
      var began := if Completes(Take(plan)) then c.(log := c.log + [Began(t, req.offset, req.data)]) else c;
      match w.end
      case Panicked => Finish(g, c, plan) == (Unwind(began.(disk := w.disk), t, req), w.plan)
      case Done(Err(_)) => Finish(g, c, plan) == (FailSticky(began.(disk := w.disk), t, req), w.plan)
      case Done(Ok(_)) =>
        && Ready(g, began.(disk := w.disk, lock := Held(t, req, StatSync)))
        && Finish(g, c, plan) == Finish(g, began.(disk := w.disk, lock := Held(t, req, StatSync)), w.plan)
  {
    hide Calms, Take, Rest, Left, Finish, Buffer, WriteRun, Ready;
    ReadyIs(g, c);
    FinishStep(g, c, plan);
    var r := Call(g, c, Take(plan));
    if r.lock.Free? {
      FinishFree(g, r, Rest(plan));
    } else {
      FinishWriting(g, r, Rest(plan));
    }
  }

  lemma {:induction false} FinishReading(g: Setup, c: Core, plan: Plan)
    requires Ready(g, c) && c.lock.Held? && c.lock.phase.Reading?
    ensures var t, req := c.lock.tid, c.lock.req;
      && ReadStart(g, req) + Span(req) <= |c.disk.visible|
      && var f := ReadRun(c.disk, ReadStart(g, req), c.lock.phase.got, Span(req), plan);
      match f.end
      case Panicked => Finish(g, c, plan) == (Unwind(c, t, req), f.plan)
      case Done(Err(_)) => Finish(g, c, plan) == (ReadFails(g, c), f.plan)
      case Done(Ok(got)) =>
        && |got| == Span(req)
        && Finish(g, c, plan) == (Return(c, t, req, Ok(Answer(g, req, got))), f.plan)
    decreases Left(plan), Span(c.lock.req) - |c.lock.phase.got|
  {
    hide Calms, Take, Rest, Left, Finish, Span, Answer, Ready;
    LeftRest(plan);
    ReadyIs(g, c);
    var t, req, got := c.lock.tid, c.lock.req, c.lock.phase.got;
    ReadFits(g, req);
    var a := Take(plan);
    var r := Call(g, c, a);
    FinishStep(g, c, plan);
    if a.Interrupted? {
      FinishReading(g, c, Rest(plan));
    } else if r.lock.Free? {
      FinishFree(g, r, Rest(plan));
    } else {
      FinishReading(g, r, Rest(plan));
    }
  }

  function ReadFails(g: Setup, c: Core): Core
    requires c.lock.Held?
  {
    if g.mode.ReadWriteMode? then FailSticky(c, c.lock.tid, c.lock.req)
    else Return(c, c.lock.tid, c.lock.req, Err(BackendIo))
  }

  /** A read from its first call to its answer. */
  lemma FinishRead(g: Setup, c: Core, plan: Plan)
    requires Ready(g, c) && c.lock.Held? && c.lock.phase.StatRead?
    ensures var t, req := c.lock.tid, c.lock.req;
      var f := ReadExact(g.fileLen, c.disk, ReadStart(g, req), Span(req), plan);
      match f.end
      case Panicked => Finish(g, c, plan) == (Unwind(c, t, req), f.plan)
      case Done(Err(_)) => Finish(g, c, plan) == (ReadFails(g, c), f.plan)
      case Done(Ok(got)) =>
        && |got| == Span(req)
        && Finish(g, c, plan) == (Return(c, t, req, Ok(Answer(g, req, got))), f.plan)
  {
    hide Calms, Take, Rest, Left, Finish, Span, Answer, ReadRun, Ready;
    ReadyIs(g, c);
    ReadFits(g, c.lock.req);
    FinishStep(g, c, plan);
    var r := Call(g, c, Take(plan));
    if r.lock.Free? {
      FinishFree(g, r, Rest(plan));
    } else {
      FinishReading(g, r, Rest(plan));
    }
  }
}
