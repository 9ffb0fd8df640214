/** `BlockAdapter` of `src/adapter.rs` and the callbacks of `src/adapter/windows.rs`. */
module Adapter {
  import opened Basics
  import opened Images
  import opened Device
  import opened Volumes
  import opened Session
  import opened Outcomes
  import Durability

  /** The status a callback reports to the dispatcher. */
  function Code(r: Result<seq<Byte>>): int {
    match r
    case Ok(_) => 0
    case Err(ReadOnly) => 1
    case Err(InvalidRange) => 2
    case Err(Stopping) => 3
    case Err(WritebackFailed) => 5
    case Err(UnsupportedOperation) => 6
    case Err(_) => 4
  }

  /** The byte address of a block fits 64 bits. */
  predicate Addressable(lba: u64) {
    lba * 512 < U64_LIMIT
  }

  /** Wrapping increment of an event counter. */
  function Bump(n: u64): u64 {
    (n + 1) % U64_LIMIT
  }

  /** A failed or panicking run of the critical section says so in its flags. */
  lemma {:induction false} FinishFlags(g: Setup, c: Core, plan: Plan)
    requires Ready(g, c) && (c.lock.Held? ==> !c.poisoned)
    ensures var r := Finish(g, c, plan).0;
      && (c.faulted ==> r.faulted)
      && (c.lock.Held? ==> r.log != [] && (r.poisoned <==> r.log[|r.log| - 1].Unwound?))
      && (c.lock.Free? ==> r == c)
    decreases Left(plan), Rank(c.lock), ToMove(c.lock)
  {
    hide Call, Calms, Take, Rest, Left;
    if c.lock.Held? {
      LeftRest(plan);
      CallReady(g, c, Take(plan));
      CallEffect(g, c, Take(plan));
      CallAdvances(g, c, Take(plan));
      FinishFlags(g, Call(g, c, Take(plan)), Rest(plan));
    }
  }

  lemma SoloFlags(g: Setup, c: Core, stopping: bool, t: nat, req: Request, plan: Plan)
    requires Ready(g, c) && c.lock.Free?
    ensures var r := Solo(g, c, stopping, t, req, plan).0;
      && r.log != [] && (c.faulted ==> r.faulted)
      && (r.poisoned <==> c.poisoned || r.log[|r.log| - 1].Unwound?)
  {
    hide Finish;
    if Refusal(g, stopping, req).None? {
      var c := Invoke(c, t, req);
      AcquireReady(g, c, t, req);
      FinishFlags(g, Acquire(g, c, t, req), plan);
    }
  }

  /** One callback of the drain, already past the `stopping` check. */
  method Serve(v: Volume, req: Request, ghost t: nat) returns (e: Ended<seq<Byte>>)
    requires v.Valid()
    modifies v, v.image
    ensures v.Valid()
    ensures (v.State(), v.image.plan) == Solo(v.G(), old(v.State()), false, t, req, old(v.image.plan))
    ensures Answers(v.log, e)
  {
    match req
    case Read(offset, len) => e := v.ReadAt(offset, len, t);
    case Write(offset, data) => e := v.WriteAt(offset, data, t);
    case Flush => e := v.FlushAll(t);
  }

  /** Neither the file nor the session noticed the request. */
  predicate Unnoticed(was: Core, now: Core) {
    now.disk == was.disk && now.faulted == was.faulted && now.poisoned == was.poisoned
  }

  /** A block read: refused after the stop and beyond 64-bit addresses, otherwise the read of those bytes. */
  ghost predicate ReadReported(g: Setup, stopping: bool, was: Core, now: Core, before: Plan, after: Plan, lba: u64,
      count: u32, e: Ended<seq<Byte>>)
    requires Intact(g, was) && Intact(g, now)
  {
    if stopping then e == Done(Err(Stopping)) && Unnoticed(was, now) && after == before
    else if lba * 512 >= 0x1_0000_0000_0000_0000 then
      e == Done(Err(InvalidRange)) && Unnoticed(was, now) && after == before
    else ReadServed(g, was, now, before, after, lba * 512, count * 512, e)
  }

  /** A block write: refused in a read-only session, after the stop and beyond 64-bit addresses. */
  ghost predicate WriteReported(g: Setup, stopping: bool, was: Core, now: Core, before: Plan, after: Plan, lba: u64,
      bytes: seq<Byte>, e: Ended<seq<Byte>>)
    requires Intact(g, was) && Intact(g, now)
  {
    if g.mode == ReadOnlyMode then e == Done(Err(ReadOnly)) && Unnoticed(was, now) && after == before
    else if stopping then e == Done(Err(Stopping)) && Unnoticed(was, now) && after == before
    else if lba * 512 >= 0x1_0000_0000_0000_0000 then
      e == Done(Err(InvalidRange)) && Unnoticed(was, now) && after == before
    else WriteServed(g, was, now, before, after, lba * 512, bytes, e)
  }

  /** A flush of blocks: refused after the stop and for blocks outside the device. */
  ghost predicate FlushReported(g: Setup, stopping: bool, was: Core, now: Core, before: Plan, after: Plan, lba: u64,
      count: u32, e: Ended<seq<Byte>>)
    requires Intact(g, was) && Intact(g, now)
  {
    if stopping then e == Done(Err(Stopping)) && Unnoticed(was, now) && after == before
    else if lba * 512 + count * 512 > g.length then
      e == Done(Err(InvalidRange)) && Unnoticed(was, now) && after == before
    else FlushServed(g, was, now, before, after, e)
  }

  /** A callback that unwound marks the session faulted. */
  ghost function Marked(c: Core): Core {
    if c.log != [] && c.log[|c.log| - 1].Unwound? then c.(faulted := true) else c
  }

  /** The callbacks `pending[i..]`, one after the other. */
  ghost function Drain(g: Setup, c: Core, plan: Plan, pending: seq<Request>, i: nat): (r: (Core, Plan))
    requires Ready(g, c) && c.lock.Free? && i <= |pending|
    ensures Ready(g, r.0) && r.0.lock.Free?
    decreases |pending| - i
  {
    if i == |pending| then (c, plan)
    else
      var r := Solo(g, c, false, i + 1, pending[i], plan);
      Drain(g, Marked(r.0), r.1, pending, i + 1)
  }

  lemma DrainNone(g: Setup, c: Core, plan: Plan, pending: seq<Request>)
    requires Ready(g, c) && c.lock.Free?
    ensures Drain(g, c, plan, pending, |pending|) == (c, plan)
  {
  }

  /** The last event of the history is a success. */
  predicate Succeeded(log: seq<Event>) {
    log != [] && log[|log| - 1].Returned? && log[|log| - 1].result.Ok?
  }

  lemma DrainStep(g: Setup, c: Core, plan: Plan, pending: seq<Request>, i: nat)
    requires Ready(g, c) && c.lock.Free? && i < |pending|
    ensures var r := Solo(g, c, false, i + 1, pending[i], plan);
      Ready(g, Marked(r.0)) && Drain(g, c, plan, pending, i) == Drain(g, Marked(r.0), r.1, pending, i + 1)
  {
  }

  class BlockAdapter {
    const volume: Volume
    var stopping: bool
    var readCount: u64
    var writeAttempts: u64
    var unmapAttempts: u64
    var flushes: u64

    ghost predicate Valid()
      reads this, volume, volume.image
    {
      volume.Valid()
    }

    constructor (volume: Volume)
      requires volume.Valid()
      ensures Valid() && this.volume == volume && !stopping
      ensures readCount == writeAttempts == unmapAttempts == flushes == 0
    {
      this.volume, stopping := volume, false;
      readCount, writeAttempts, unmapAttempts, flushes := 0, 0, 0, 0;
    }

    method Read(lba: u64, count: u32, ghost t: nat) returns (e: Ended<seq<Byte>>)
      requires Valid()
      modifies this`readCount, volume, volume.image
      ensures Valid()
      ensures !Addressable(lba) ==>
        && e == Done(Err(if stopping then Stopping else InvalidRange))
        && unchanged(this) && unchanged(volume, volume.image)
      ensures Addressable(lba) ==>
        && (volume.State(), volume.image.plan)
           == Solo(volume.G(), old(volume.State()), stopping, t, Request.Read(lba * 512, count * 512),
             old(volume.image.plan))
        && Answers(volume.log, e)
        && readCount == if stopping then old(readCount) else Bump(old(readCount))
      ensures ReadReported(volume.G(), stopping, old(volume.State()), volume.State(), old(volume.image.plan),
        volume.image.plan, lba, count, e)
      ensures e.Done? && e.result.Ok? ==> |e.result.value| == count * 512
    {
      hide ReadServed;
      if stopping {
        if Addressable(lba) {
          ghost var req := Request.Read(lba * 512, count * 512);
          volume.log := volume.log + [Invoked(t, req)] + [Returned(t, req, Err(Stopping))];
        }
        return Done(Err(Stopping));
      }
      if !Addressable(lba) {
        return Done(Err(InvalidRange));
      }
      readCount := Bump(readCount);
      e := volume.ReadAt(lba * 512, count * 512, t);
    }

    method Write(lba: u64, bytes: seq<Byte>, ghost t: nat) returns (e: Ended<seq<Byte>>)
      requires Valid()
      modifies this`writeAttempts, volume, volume.image
      ensures Valid() && writeAttempts == Bump(old(writeAttempts))
      ensures !Addressable(lba) ==>
        && e == Done(Err(
             if volume.image.mode.ReadOnlyMode? then ReadOnly else if stopping then Stopping else InvalidRange))
        && unchanged(volume, volume.image)
      ensures Addressable(lba) ==>
        && (volume.State(), volume.image.plan)
           == Solo(volume.G(), old(volume.State()), stopping, t, Request.Write(lba * 512, bytes),
             old(volume.image.plan))
        && Answers(volume.log, e)
      ensures WriteReported(volume.G(), stopping, old(volume.State()), volume.State(), old(volume.image.plan),
        volume.image.plan, lba, bytes, e)
    {
      hide WriteServed;
      writeAttempts := Bump(writeAttempts);
      var refused :=
        if volume.image.mode == ReadOnlyMode then Some(ReadOnly) else if stopping then Some(Stopping) else None;
      if refused.Some? {
        if Addressable(lba) {
          ghost var req := Request.Write(lba * 512, bytes);
          volume.log := volume.log + [Invoked(t, req)] + [Returned(t, req, Err(refused.value))];
        }
        return Done(Err(refused.value));
      }
      if !Addressable(lba) {
        return Done(Err(InvalidRange));
      }
      e := volume.WriteAt(lba * 512, bytes, t);
    }

    method Unmap() returns (e: Ended<seq<Byte>>)
      modifies this`unmapAttempts
      ensures unmapAttempts == Bump(old(unmapAttempts))
      ensures e == Done(Err(if volume.image.mode.ReadOnlyMode? then ReadOnly else UnsupportedOperation))
    {
      unmapAttempts := Bump(unmapAttempts);
      return Done(Err(if volume.image.mode == ReadOnlyMode then ReadOnly else UnsupportedOperation));
    }

    /** A count of zero means through the end of the device. */
    method Flush(lba: u64, count: u32, ghost t: nat) returns (e: Ended<seq<Byte>>)
      requires Valid()
      modifies this`flushes, volume, volume.image
      ensures Valid()
      ensures var inRange := lba * 512 + count * 512 <= volume.length;
        if stopping || !inRange then
          && e == Done(Err(if stopping then Stopping else InvalidRange))
          && unchanged(this) && unchanged(volume, volume.image)
        else
          && (volume.State(), volume.image.plan)
             == Solo(volume.G(), old(volume.State()), false, t, Request.Flush, old(volume.image.plan))
          && Answers(volume.log, e) && flushes == Bump(old(flushes))
      ensures FlushReported(volume.G(), stopping, old(volume.State()), volume.State(), old(volume.image.plan),
        volume.image.plan, lba, count, e)
    {
      hide FlushServed;
      if stopping {
        return Done(Err(Stopping));
      }
      if !Addressable(lba) {
        return Done(Err(InvalidRange));
      }
      var o := lba * 512;
      if count == 0 {
        if o <= volume.length {
          flushes := Bump(flushes);
          e := volume.FlushAll(t);
          return;
        }
        return Done(Err(InvalidRange));
      }
      var n := count * 512;
      if o > volume.length || n > volume.length - o {
        return Done(Err(InvalidRange));
      }
      flushes := Bump(flushes);
      e := volume.FlushAll(t);
    }

    method Stop()
      modifies this`stopping
      ensures stopping
    {
      stopping := true;
    }

    /**
     Flush, stop, drain, then look at the fault flag. `pending` are the callbacks that
     had passed the `stopping` check and run inside the drain, which ends with `transport`.
     A session stopped before has no final flush and counts as failed.
     */
    method Shutdown(pending: seq<Request>, transport: u32, ghost t: nat) returns (verdict: Ended<bool>)
      requires Valid()
      modifies this, volume, volume.image
      ensures Valid()
      ensures var g, f := volume.G(),
        Solo(volume.G(), old(volume.State()), false, t, Request.Flush, old(volume.image.plan));
        !old(stopping) ==>
          && (verdict.Panicked? ==> Answers(f.0.log, Panicked) && (volume.State(), volume.image.plan) == f)
          && (verdict.Done? ==>
                && stopping && (volume.State(), volume.image.plan) == Drain(g, f.0, f.1, pending, 0)
                && verdict == Done(Ok(!Succeeded(f.0.log) || transport != 0 || volume.faulted)))
      ensures old(stopping) ==>
        && verdict == Done(Ok(true))
        && (volume.State(), volume.image.plan)
          == Drain(volume.G(), old(volume.State()), old(volume.image.plan), pending, 0)
      ensures verdict == Done(Ok(false)) ==> !volume.poisoned && !old(volume.faulted) && !old(volume.poisoned)
      ensures !old(stopping) && !old(volume.faulted) && !old(volume.poisoned) && pending == [] && transport == 0 ==>
        && (verdict == Done(Ok(false)) || Broke(old(volume.image.plan), volume.image.plan))
        && (old(GoesWell(volume.image.plan)) ==> verdict == Done(Ok(false)))
    {
      hide Solo, Drain, Failing;
      ghost var was := volume.State();
      SoloFlags(volume.G(), volume.State(), false, t, Request.Flush, volume.image.plan);
      var f := Flush(0, 0, t);
      if f.Panicked? {
        if old(GoesWell(volume.image.plan)) {
          GoodCallsNeverBreak(old(volume.image.plan), volume.image.plan);
        }
        return Panicked;
      }
      var syncFailed := f.result.Err?;
      assert !syncFailed ==> !was.poisoned && !was.faulted && !volume.poisoned by {
        if was.poisoned || was.faulted {
          FailedSolo(volume.G(), was, t, Request.Flush, old(volume.image.plan));
        }
      }
      Stop();
      ServeAll(pending);
      if old(GoesWell(volume.image.plan)) {
        GoodCallsNeverBreak(old(volume.image.plan), volume.image.plan);
      }
      return Done(Ok(syncFailed || transport != 0 || volume.faulted));
    }

    /** The callbacks of the drain; each that panics marks the session. */
    method ServeAll(pending: seq<Request>)
      requires Valid()
      modifies volume, volume.image
      ensures Valid()
      ensures (volume.State(), volume.image.plan)
        == Drain(volume.G(), old(volume.State()), old(volume.image.plan), pending, 0)
      ensures old(volume.faulted) ==> volume.faulted
      ensures volume.poisoned ==> volume.faulted || old(volume.poisoned)
      ensures pending == [] ==> volume.State() == old(volume.State()) && volume.image.plan == old(volume.image.plan)
    {
      hide Solo, Drain, Ready;
      var i := 0;
      while i < |pending|
        invariant 0 <= i <= |pending| && Valid()
        invariant Drain(volume.G(), old(volume.State()), old(volume.image.plan), pending, 0)
               == Drain(volume.G(), volume.State(), volume.image.plan, pending, i)
        invariant old(volume.faulted) ==> volume.faulted
        invariant volume.poisoned ==> volume.faulted || old(volume.poisoned)
        invariant pending == [] ==> volume.State() == old(volume.State()) && volume.image.plan == old(volume.image.plan)
        modifies volume, volume.image
      {
        SoloFlags(volume.G(), volume.State(), false, i + 1, pending[i], volume.image.plan);
        DrainStep(volume.G(), volume.State(), volume.image.plan, pending, i);
        var e := Serve(volume, pending[i], i + 1);
        if e.Panicked? {
          volume.MarkFaulted();
        }
        i := i + 1;
      }
      DrainNone(volume.G(), volume.State(), volume.image.plan, pending);
    }
  }

  /** A failed session refuses a flush. */
  lemma FailedSolo(g: Setup, c: Core, t: nat, req: Request, plan: Plan)
    requires Ready(g, c) && c.lock.Free? && (c.faulted || c.poisoned) && Refusal(g, false, req).None?
    ensures Solo(g, c, false, t, req, plan).0.log
      == c.log + [Invoked(t, req)] + [Returned(t, req, Err(WritebackFailed))]
    ensures Solo(g, c, false, t, req, plan).0.disk == c.disk && Solo(g, c, false, t, req, plan).1 == plan
  {
  }

  method Clear(buffer: array<Byte>, n: nat)
    requires n <= buffer.Length
    modifies buffer
    ensures Zero(buffer[..n]) && buffer[n..] == old(buffer[n..])
  {
    forall i | 0 <= i < n {
      buffer[i] := 0;
    }
  }

  /** The status of an outcome, number by number. */
  predicate Reports(code: int, e: Ended<seq<Byte>>) {
    && (code == 0 <==> e.Done? && e.result.Ok?)
    && (code == 1 <==> e == Done(Err(ReadOnly)))
    && (code == 2 <==> e == Done(Err(InvalidRange)))
    && (code == 3 <==> e == Done(Err(Stopping)))
    && (code == 5 <==> e == Panicked || e == Done(Err(WritebackFailed)))
    && (code == 6 <==> e == Done(Err(UnsupportedOperation)))
    && (code == 4 <==> e.Done? && e.result.Err? && Other(e.result.error))
  }

  predicate Other(e: Error) {
    e !in {ReadOnly, InvalidRange, Stopping, WritebackFailed, UnsupportedOperation}
  }

  lemma CodeReports(e: Ended<seq<Byte>>)
    ensures Reports(if e.Panicked? then 5 else Code(e.result), e)
  {
  }

  /** Marking the fault after a panic does not change what became of the request. */
  lemma MarkedServed(g: Setup, stopping: bool, was: Core, now: Core, before: Plan, after: Plan, lba: u64, count: u32,
      bytes: seq<Byte>)
    requires Intact(g, was) && Intact(g, now)
    ensures Intact(g, now.(faulted := true))
    ensures ReadReported(g, stopping, was, now, before, after, lba, count, Panicked) ==>
      ReadReported(g, stopping, was, now.(faulted := true), before, after, lba, count, Panicked)
    ensures WriteReported(g, stopping, was, now, before, after, lba, bytes, Panicked) ==>
      WriteReported(g, stopping, was, now.(faulted := true), before, after, lba, bytes, Panicked)
    ensures FlushReported(g, stopping, was, now, before, after, lba, count, Panicked) ==>
      FlushReported(g, stopping, was, now.(faulted := true), before, after, lba, count, Panicked)
  {
    hide Broke, Durability.Plain;
  }

  /**
   The read callback. The caller's buffer holds the answer on success and zeros after any
   failure, a panic included; a panic also leaves the session faulted.
   */
  method ReadCb(a: BlockAdapter, lba: u64, count: u32, buffer: array<Byte>, ghost t: nat)
      returns (code: int, ghost e: Ended<seq<Byte>>)
    requires a.Valid() && (count <= 2048 ==> count * 512 <= buffer.Length)
    modifies a, a.volume, a.volume.image, buffer
    ensures a.Valid() && Reports(code, e) && (e == Panicked ==> a.volume.faulted)
    ensures count <= 2048 ==>
      && (code == 0 ==> e == Done(Ok(buffer[..count * 512])))
      && ReadReported(a.volume.G(), a.stopping, old(a.volume.State()), a.volume.State(), old(a.volume.image.plan),
           a.volume.image.plan, lba, count, e)
    ensures count > 2048 ==> code == 2 && unchanged(a, a.volume, a.volume.image) && buffer[..] == old(buffer[..])
    ensures count <= 2048 ==> buffer[count * 512..] == old(buffer[count * 512..])
    ensures count <= 2048 && code != 0 ==> Zero(buffer[..count * 512])
    ensures count <= 2048 && !Addressable(lba) ==>
      code == (if a.stopping then 3 else 2) && unchanged(a, a.volume, a.volume.image)
    ensures count <= 2048 && Addressable(lba) ==>
      var s := Solo(a.volume.G(), old(a.volume.State()), a.stopping, t, Request.Read(lba * 512, count * 512),
        old(a.volume.image.plan));
      && a.volume.image.plan == s.1 && |s.0.log| > 0
      && (match s.0.log[|s.0.log| - 1]
          case Returned(_, _, r) =>
            a.volume.State() == s.0 && code == Code(r) && (r.Ok? ==> buffer[..count * 512] == r.value)
          case _ => a.volume.State() == s.0.(faulted := true) && code == 5)
  {
    hide Solo, ReadReported, Reports;
    CodeReports(Done(Err(InvalidRange)));
    if count > 2048 {
      return 2, Done(Err(InvalidRange));
    }
    Clear(buffer, count * 512);
    var r := ServeRead(a, lba, count, t);
    CodeReports(r);
    code := Deliver(r, buffer, count * 512);
    e := r;
  }

  /** The read under the panic guard: one that unwinds marks the session. */
  method ServeRead(a: BlockAdapter, lba: u64, count: u32, ghost t: nat) returns (r: Ended<seq<Byte>>)
    requires a.Valid()
    modifies a, a.volume, a.volume.image
    ensures a.Valid() && (r == Panicked ==> a.volume.faulted)
    ensures r.Done? && r.result.Ok? ==> |r.result.value| == count * 512
    ensures ReadReported(a.volume.G(), a.stopping, old(a.volume.State()), a.volume.State(), old(a.volume.image.plan),
      a.volume.image.plan, lba, count, r)
    ensures !Addressable(lba) ==>
      r == Done(Err(if a.stopping then Stopping else InvalidRange)) && unchanged(a, a.volume, a.volume.image)
    ensures Addressable(lba) ==>
      var s := Solo(a.volume.G(), old(a.volume.State()), a.stopping, t, Request.Read(lba * 512, count * 512),
        old(a.volume.image.plan));
      && a.volume.image.plan == s.1 && |s.0.log| > 0
      && (match s.0.log[|s.0.log| - 1]
          case Returned(_, _, result) => a.volume.State() == s.0 && r == Done(result)
          case _ => a.volume.State() == s.0.(faulted := true) && r == Panicked)
  {
    hide Solo, Ready, ReadReported;
    ghost var was, before := a.volume.State(), a.volume.image.plan;
    ReadyIs(a.volume.G(), was);
    if Addressable(lba) {
      SoloFlags(a.volume.G(), was, a.stopping, t, Request.Read(lba * 512, count * 512), before);
    }
    r := a.Read(lba, count, t);
    ReadyIs(a.volume.G(), a.volume.State());
    if r.Panicked? {
      MarkedServed(a.volume.G(), a.stopping, was, a.volume.State(), before, a.volume.image.plan, lba, count, []);
      a.volume.MarkFaulted();
    }
  }

  /** The answer goes into the buffer, or zeros do. */
  method Deliver(r: Ended<seq<Byte>>, buffer: array<Byte>, n: nat) returns (code: int)
    requires n <= buffer.Length && (r.Done? && r.result.Ok? ==> |r.result.value| == n)
    modifies buffer
    ensures code == if r.Panicked? then 5 else Code(r.result)
    ensures buffer[n..] == old(buffer[n..])
    ensures if r.Done? && r.result.Ok? then buffer[..n] == r.result.value else Zero(buffer[..n])
  {
    if r.Panicked? {
      Clear(buffer, n);
      return 5;
    }
    if r.result.Err? {
      Clear(buffer, n);
      return Code(r.result);
    }
    CopyInto(buffer, 0, r.result.value);
    assert buffer[..n] == r.result.value;
    return 0;
  }

  /** The write callback: the status of the write, or a fault after a panic. */
  method WriteCb(a: BlockAdapter, lba: u64, count: u32, buffer: array<Byte>, ghost t: nat)
      returns (code: int, ghost e: Ended<seq<Byte>>)
    requires a.Valid() && (count <= 2048 ==> count * 512 <= buffer.Length)
    modifies a, a.volume, a.volume.image
    ensures a.Valid() && Reports(code, e) && (e == Panicked ==> a.volume.faulted)
    ensures count <= 2048 ==>
      WriteReported(a.volume.G(), a.stopping, old(a.volume.State()), a.volume.State(), old(a.volume.image.plan),
        a.volume.image.plan, lba, old(buffer[..count * 512]), e)
    ensures count > 2048 ==> code == 2 && unchanged(a, a.volume, a.volume.image)
    ensures count <= 2048 && !Addressable(lba) ==>
      code == (if a.volume.image.mode.ReadOnlyMode? then 1 else if a.stopping then 3 else 2)
        && unchanged(a.volume, a.volume.image)
    ensures count <= 2048 && Addressable(lba) ==>
      var s := Solo(a.volume.G(), old(a.volume.State()), a.stopping, t,
        Request.Write(lba * 512, old(buffer[..count * 512])), old(a.volume.image.plan));
      && a.volume.image.plan == s.1 && |s.0.log| > 0
      && (match s.0.log[|s.0.log| - 1]
          case Returned(_, _, r) => a.volume.State() == s.0 && code == Code(r)
          case _ => a.volume.State() == s.0.(faulted := true) && code == 5)
  {
    hide Solo, Ready, WriteReported, Reports;
    CodeReports(Done(Err(InvalidRange)));
    ReadyIs(a.volume.G(), a.volume.State());
    if count > 2048 {
      return 2, Done(Err(InvalidRange));
    }
    ghost var was, before, bytes := a.volume.State(), a.volume.image.plan, buffer[..count * 512];
    if Addressable(lba) {
      SoloFlags(a.volume.G(), was, a.stopping, t, Request.Write(lba * 512, bytes), before);
    }
    var r := a.Write(lba, buffer[..count * 512], t);
    CodeReports(r);
    ReadyIs(a.volume.G(), a.volume.State());
    if r.Panicked? {
      MarkedServed(a.volume.G(), a.stopping, was, a.volume.State(), before, a.volume.image.plan, lba, count, bytes);
      a.volume.MarkFaulted();
      return 5, r;
    }
    return Code(r.result), r;
  }

  /** The control callback: 2 flushes, 3 is the unmap that is never served. */
  method ControlCb(a: BlockAdapter, op: u32, lba: u64, count: u32, ghost t: nat)
      returns (code: int, ghost e: Ended<seq<Byte>>)
    requires a.Valid()
    modifies a, a.volume, a.volume.image
    ensures a.Valid() && Reports(code, e) && (e == Panicked ==> a.volume.faulted)
    ensures op == 2 ==>
      FlushReported(a.volume.G(), a.stopping, old(a.volume.State()), a.volume.State(), old(a.volume.image.plan),
        a.volume.image.plan, lba, count, e)
    ensures op != 2 ==> unchanged(a.volume, a.volume.image)
    ensures op == 3 ==> code == if a.volume.image.mode.ReadOnlyMode? then 1 else 6
    ensures op != 2 && op != 3 ==> code == 2
    ensures op == 2 && (a.stopping || lba * 512 + count * 512 > a.volume.length) ==>
      code == (if a.stopping then 3 else 2) && unchanged(a.volume, a.volume.image)
    ensures op == 2 && !a.stopping && lba * 512 + count * 512 <= a.volume.length ==>
      var s := Solo(a.volume.G(), old(a.volume.State()), false, t, Request.Flush, old(a.volume.image.plan));
      && a.volume.image.plan == s.1 && |s.0.log| > 0
      && (match s.0.log[|s.0.log| - 1]
          case Returned(_, _, r) => a.volume.State() == s.0 && code == Code(r)
          case _ => a.volume.State() == s.0.(faulted := true) && code == 5)
  {
    hide Solo, Ready, FlushReported, Reports;
    ReadyIs(a.volume.G(), a.volume.State());
    ghost var was, before := a.volume.State(), a.volume.image.plan;
    SoloFlags(a.volume.G(), was, false, t, Request.Flush, before);
    var r: Ended<seq<Byte>> := Done(Err(InvalidRange));
    if op == 2 {
      r := a.Flush(lba, count, t);
    } else if op == 3 {
      r := a.Unmap();
    }
    CodeReports(r);
    ReadyIs(a.volume.G(), a.volume.State());
    if r.Panicked? {
      MarkedServed(a.volume.G(), a.stopping, was, a.volume.State(), before, a.volume.image.plan, lba, count, []);
      a.volume.MarkFaulted();
      return 5, r;
    }
    return Code(r.result), r;
  }
}
