/**
 What a request served alone comes to, in terms of the caller's numbers and the plain array:
 the exact refusals, what a success did, and which state a failure leaves.
 */
module Outcomes {
  import opened Basics
  import opened Sectors
  import opened Images
  import opened Device
  import opened Durability
  import opened Volumes

  ghost predicate Intact(g: Setup, c: Core) {
    Fits(g) && Shaped(c.disk) && |c.disk.visible| == g.fileLen
  }

  /**
   A write of `data` at `offset` that found the session as `was` and left it as `now`. It is
   refused for exactly these reasons in this order; otherwise it is either acknowledged, and
   then the payload is the old one with the data laid over it, durably so on a synced disk, or
   its last call went wrong and the session has failed for good.
   */
  ghost predicate WriteServed(g: Setup, was: Core, now: Core, before: Plan, after: Plan, offset: nat, data: seq<Byte>,
      e: Ended<seq<Byte>>)
    requires Intact(g, was) && Intact(g, now)
  {
    var unserved := now.disk == was.disk && after == before && now.poisoned == was.poisoned;
    && Advanced(before, after)
    && if g.mode == ReadOnlyMode then e == Done(Err(ReadOnly)) && unserved && now.faulted == was.faulted
    else if |data| > 1048576 || offset + |data| > g.length || offset % 512 != 0 || |data| % 512 != 0 then
      e == Done(Err(InvalidRange)) && unserved && now.faulted == was.faulted
    else if was.faulted || was.poisoned then e == Done(Err(WritebackFailed)) && unserved && now.faulted
    else if |data| == 0 then e == Done(Ok([])) && unserved && !now.faulted
    else
      || (&& e == Done(Ok([])) && !now.faulted && !now.poisoned
          && SameFrame(g, was.disk.visible, now.disk.visible)
          && Plain(g, now.disk.visible) == Splice(Plain(g, was.disk.visible), offset, data)
          && (Rested(was.disk) ==> Rested(now.disk) && Durable(now.disk, now.disk.visible)))
      || (Broke(before, after) && Failed(now, e))
  }

  /** A writable session that failed: the caller learns of it, and so does every later request. */
  predicate Failed(now: Core, e: Ended<seq<Byte>>) {
    (e == Panicked && now.poisoned) || (e == Done(Err(WritebackFailed)) && now.faulted)
  }

  /** A read of `n` bytes at `offset`: refused for exactly these reasons, otherwise the bytes of the payload. */
  ghost predicate ReadServed(g: Setup, was: Core, now: Core, before: Plan, after: Plan, offset: nat, n: nat,
      e: Ended<seq<Byte>>)
    requires Intact(g, was)
  {
    var unserved := after == before && now.poisoned == was.poisoned;
    && now.disk == was.disk && Advanced(before, after)
    && if was.faulted || was.poisoned then e == Done(Err(WritebackFailed)) && unserved && now.faulted
       else if n > 1048576 || offset + n > g.length then e == Done(Err(InvalidRange)) && unserved && !now.faulted
       else if n == 0 then e == Done(Ok([])) && unserved && !now.faulted
       else if 512 * ((offset + n + 511) / 512) - 512 * (offset / 512) > 1048576 then
         e == Done(Err(InvalidRange)) && unserved && !now.faulted
       else
         || (&& e == Done(Ok(Plain(g, was.disk.visible)[offset..offset + n])) && !now.faulted && !now.poisoned)
         || (Broke(before, after) && if g.mode == ReadWriteMode then Failed(now, e) else FailedQuietly(now, e))
  }

  /** A read-only session reports a failed read and goes on. */
  predicate FailedQuietly(now: Core, e: Ended<seq<Byte>>) {
    (e == Panicked && now.poisoned) || (e == Done(Err(BackendIo)) && !now.faulted && !now.poisoned)
  }

  /** A flush: refused by a failed session, otherwise the sync is honoured or its last call went wrong. */
  ghost predicate FlushServed(g: Setup, was: Core, now: Core, before: Plan, after: Plan, e: Ended<seq<Byte>>)
    requires Intact(g, was) && Intact(g, now)
  {
    && Advanced(before, after)
    && if was.faulted || was.poisoned then
      e == Done(Err(WritebackFailed)) && now.disk == was.disk && after == before && now.faulted
    else
      || (&& e == Done(Ok([])) && !now.faulted && !now.poisoned
          && (if g.mode == ReadOnlyMode then now.disk == was.disk
              else SyncHonoured(was.disk, now.disk)))
      || (Broke(before, after) && Failed(now, e))
  }

  // ---- flush ----

  /** A sync from inside the critical section. */
  lemma FinishedSync(g: Setup, c: Core, plan: Plan)
    requires Ready(g, c) && c.lock.Held? && c.lock.phase.StatSync?
    ensures var req, t, r := c.lock.req, c.lock.tid, Finish(g, c, plan);
      && Advanced(plan, r.1) && r.0.disk.visible == c.disk.visible
      && (|| r.0 == Return(c.(disk := if g.mode.ReadOnlyMode? then c.disk else Synced(c.disk)), t, req, Ok([]))
          || (Broke(plan, r.1) && r.0.poisoned && Answers(r.0.log, Panicked))
          || (Broke(plan, r.1) && r.0.faulted && Answers(r.0.log, Done(Err(WritebackFailed)))))
  {
    hide Calms, Finish, SyncRun, Failing, Synced;
    ReadyIs(g, c);
    FinishSync(g, c, plan);
    SyncOutcome(g.mode, c.disk, plan);
  }

  lemma SoloFlush(g: Setup, c: Core, t: nat, plan: Plan, e: Ended<seq<Byte>>)
    requires Ready(g, c) && Sound(c.disk) && c.lock.Free?
    requires Answers(Solo(g, c, false, t, Flush, plan).0.log, e)
    ensures Intact(g, c) && Intact(g, Solo(g, c, false, t, Flush, plan).0)
    ensures FlushServed(g, c, Solo(g, c, false, t, Flush, plan).0, plan, Solo(g, c, false, t, Flush, plan).1, e)
  {
    hide Calms, Finish, Failing, Synced, SyncHonoured;
    ReadyIs(g, c);
    var c1 := Invoke(c, t, Flush);
    AcquireReady(g, c1, t, Flush);
    var a := Acquire(g, c1, t, Flush);
    ReadyIs(g, Solo(g, c, false, t, Flush, plan).0);
    if a.lock.Held? {
      FinishedSync(g, a, plan);
      SyncedIsHonoured(c.disk);
    } else {
      FinishFree(g, a, plan);
    }
  }

  // ---- read ----

  /** The transfer of an accepted read: the plain bytes, or a failure by the mode of the session. */
  lemma FinishedRead(g: Setup, c: Core, plan: Plan)
    requires Ready(g, c) && c.lock.Held? && c.lock.phase.StatRead? && !c.faulted && !c.poisoned
    ensures var req, t, r := c.lock.req, c.lock.tid, Finish(g, c, plan);
      var plain := Plain(g, c.disk.visible);
      && Advanced(plan, r.1) && r.0.disk == c.disk
      && (|| r.0 == Return(c, t, req, Ok(plain[req.offset..req.offset + req.len]))
          || (Broke(plan, r.1) && r.0.poisoned && Answers(r.0.log, Panicked))
          || (Broke(plan, r.1) && g.mode.ReadWriteMode? && r.0.faulted && Answers(r.0.log, Done(Err(WritebackFailed))))
          || (Broke(plan, r.1) && g.mode.ReadOnlyMode? && !r.0.faulted && !r.0.poisoned
            && Answers(r.0.log, Done(Err(BackendIo)))))
  {
    hide Calms, Finish, Span, Answer, ReadExact, Failing, Plain;
    ReadyIs(g, c);
    var req := c.lock.req;
    ReadFits(g, req);
    FinishRead(g, c, plan);
    ReadOutcome(g.fileLen, c.disk, ReadStart(g, req), Span(req), plan);
    var f := ReadExact(g.fileLen, c.disk, ReadStart(g, req), Span(req), plan);
    if f.end.Done? && f.end.result.Ok? {
      AnswerIsSlice(g, c.disk.visible, req, f.end.result.value);
    }
  }

  lemma SoloRead(g: Setup, c: Core, t: nat, offset: u64, n: nat, plan: Plan, e: Ended<seq<Byte>>)
    requires Ready(g, c) && c.lock.Free?
    requires Answers(Solo(g, c, false, t, Read(offset, n), plan).0.log, e)
    ensures Intact(g, c)
    ensures var r := Solo(g, c, false, t, Read(offset, n), plan);
      ReadServed(g, c, r.0, plan, r.1, offset, n, e)
  {
    hide Calms, Finish, Failing, Plain;
    ReadyIs(g, c);
    var c1, req := Invoke(c, t, Read(offset, n)), Read(offset, n);
    AcquireReady(g, c1, t, req);
    var a := Acquire(g, c1, t, req);
    if a.lock.Held? {
      FinishedRead(g, a, plan);
    } else {
      FinishFree(g, a, plan);
      if RangeOk(g.length, offset, n) {
        NoReadOverflows(g, offset, n);
      }
    }
  }

  // ---- write ----

  /** The ciphertext in place makes the payload the old one with the plaintext laid over it. */
  lemma PutSettles(g: Setup, d: Disk, req: Request)
    requires Fits(g) && Shaped(d) && Sound(d) && |d.visible| == g.fileLen && WriteOk(g, req)
    ensures var now := Put(d, g.offset + req.offset, Buffer(g, req));
      && Sound(now) && SameFrame(g, d.visible, now.visible) && now.lost == d.lost
      && Plain(g, now.visible) == Splice(Plain(g, d.visible), req.offset, req.data)
  {
    hide Plain, Put, Buffer, Sound, Outside, SameFrame, DirtyWithin;
    var at, buf, x := g.offset + req.offset, Buffer(g, req), Extent(req.offset, |req.data|);
    var now := Put(d, at, buf);
    PutSound(d, at, buf);
    PutOutside(d, at, buf, Extent(at, x.n));
    PlainLocal(g, now.visible, d.visible, x);
    SameFrameTurned(g, now.visible, d.visible);
    assert now.visible[at..at + |buf|] == buf;
    WriteSettles(g, now.visible, Plain(g, d.visible), req);
  }

  lemma SameFrameTurned(g: Setup, a: seq<Byte>, b: seq<Byte>)
    requires SameFrame(g, a, b)
    ensures SameFrame(g, b, a)
  {
  }

  lemma FinishedWrite(g: Setup, c: Core, plan: Plan)
    requires Ready(g, c) && Sound(c.disk) && c.lock.Held? && c.lock.phase.StatWrite? && !c.faulted && !c.poisoned
    ensures var req, t, r := c.lock.req, c.lock.tid, Finish(g, c, plan);
      var d := Put(c.disk, g.offset + req.offset, Buffer(g, req));
      && Advanced(plan, r.1)
      && (|| (r.0.disk == Synced(d) && !r.0.faulted && !r.0.poisoned && Answers(r.0.log, Done(Ok([]))))
          || (Broke(plan, r.1) && r.0.poisoned && Answers(r.0.log, Panicked))
          || (Broke(plan, r.1) && r.0.faulted && Answers(r.0.log, Done(Err(WritebackFailed)))))
  {
    hide Calms, Finish, WriteAll, Failing, Put, Synced, Buffer;
    ReadyIs(g, c);
    var t, req := c.lock.tid, c.lock.req;
    FinishWrite(g, c, plan);
    WriteOutcome(g.fileLen, c.disk, g.offset + req.offset, Buffer(g, req), plan);
    var w := WriteAll(g.fileLen, g.mode, c.disk, g.offset + req.offset, Buffer(g, req), plan);
    if w.end.Done? && w.end.result.Ok? {
      var began := if Completes(Take(plan)) then c.(log := c.log + [Began(t, req.offset, req.data)]) else c;
      FinishedSync(g, began.(disk := w.disk, lock := Held(t, req, StatSync)), w.plan);
    }
  }

  lemma SoloWrite(g: Setup, c: Core, t: nat, offset: u64, data: seq<Byte>, plan: Plan, e: Ended<seq<Byte>>)
    requires Ready(g, c) && Sound(c.disk) && c.lock.Free?
    requires Answers(Solo(g, c, false, t, Write(offset, data), plan).0.log, e)
    ensures Intact(g, c) && Intact(g, Solo(g, c, false, t, Write(offset, data), plan).0)
    ensures var r := Solo(g, c, false, t, Write(offset, data), plan);
      WriteServed(g, c, r.0, plan, r.1, offset, data, e)
  {
    hide Calms, Finish, Failing, Plain, Put, Synced, Buffer, SameFrame, Survives, Sound;
    ReadyIs(g, c);
    ReadyIs(g, Solo(g, c, false, t, Write(offset, data), plan).0);
    var c1, req := Invoke(c, t, Write(offset, data)), Write(offset, data);
    if Refusal(g, false, req).None? {
      AcquireReady(g, c1, t, req);
      var a := Acquire(g, c1, t, req);
      if a.lock.Held? {
        FinishedWrite(g, a, plan);
        PutSettles(g, c.disk, req);
        SyncedWrite(c.disk, g.offset + offset, Buffer(g, req));
      } else {
        FinishFree(g, a, plan);
      }
    }
  }

  /** On a synced disk a write followed by an honoured sync is durable. */
  lemma SyncedWrite(d: Disk, at: nat, b: seq<Byte>)
    requires Sound(d) && at + |b| <= |d.visible|
    ensures var now := Synced(Put(d, at, b));
      now.visible == Put(d, at, b).visible && (Rested(d) ==> Rested(now) && Durable(now, now.visible))
  {
    PutSound(d, at, b);
    SyncSound(Put(d, at, b));
  }
}
