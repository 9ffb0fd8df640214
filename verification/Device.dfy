/**
 What one session does to its image, one operating-system call at a time.
 The functions below are the critical section of `src/volume.rs`: `Acquire` is the
 part of `read_at`, `write_at` and `flush` up to the first call, `Call` is one call.
 The methods of module Volumes run them to completion; module Threads interleaves them.
 */
module Device {
  import opened Basics
  import opened Sectors
  import opened Images

  /** The constants of a session. */
  datatype Setup = Setup(cipher: Cipher, key: seq<Byte>, offset: nat, length: nat, fileLen: nat, mode: AccessMode)

  /** What `Metadata::read` and `unlock` establish about them. */
  ghost predicate Fits(g: Setup) {
    && Lawful(g.cipher)
    && (|g.key| == 32 || |g.key| == 64)
    && g.length % 512 == 0
    && g.offset + g.length <= g.fileLen < U64_LIMIT
  }

  datatype Request =
    | Read(offset: u64, len: nat)
    | Write(offset: u64, data: seq<Byte>)
    | Flush

  /** The calls a request goes through; each transfer starts with a look at the file length. */
  datatype Phase =
    | StatRead | Reading(got: seq<Byte>)
    | StatWrite | Writing(done: nat)
    | StatSync | Syncing

  datatype Lock = Free | Held(tid: nat, req: Request, phase: Phase)

  /** The history: `Began` is logged when a write is about to touch the file. */
  datatype Event =
    | Invoked(tid: nat, req: Request)
    | Began(tid: nat, at: nat, data: seq<Byte>)
    | Returned(tid: nat, req: Request, result: Result<seq<Byte>>)
    | Unwound(tid: nat, req: Request)

  datatype Core = Core(disk: Disk, faulted: bool, poisoned: bool, lock: Lock, log: seq<Event>)

  // ---- requests ----

  predicate RangeOk(total: nat, offset: nat, n: nat) {
    n <= MAX_TRANSFER && offset <= total && n <= total - offset
  }

  function FirstSector(offset: nat): nat { offset / 512 }

  /** The sector after the last one a read touches. */
  function EndSector(offset: nat, n: nat): nat { (offset + n + 511) / 512 }

  function Span(req: Request): nat
    requires req.Read?
  {
    if req.len == 0 then 0 else 512 * (EndSector(req.offset, req.len) - FirstSector(req.offset))
  }

  /** The sector-rounded span of an in-range read covers it and stays inside the volume. */
  lemma SpanFits(total: nat, offset: nat, n: nat)
    requires total % 512 == 0 && offset + n <= total && n > 0
    ensures 512 * FirstSector(offset) <= offset
    ensures offset + n <= 512 * EndSector(offset, n) <= total
    ensures FirstSector(offset) < EndSector(offset, n)
  {
  }

  predicate Aligned(offset: nat, n: nat) {
    offset % 512 == 0 && n % 512 == 0
  }

  /** The refusals decided before the lock is taken. */
  function Refusal(g: Setup, stopping: bool, req: Request): Option<Error> {
    if req.Write? then
      if g.mode.ReadOnlyMode? then Some(ReadOnly)
      else if stopping then Some(Stopping)
      else if !RangeOk(g.length, req.offset, |req.data|) then Some(InvalidRange)
      else if !Aligned(req.offset, |req.data|) then Some(InvalidRange)
      else None
    else if stopping then Some(Stopping)
    else None
  }

  // ---- one step of the critical section ----

  function Return(c: Core, t: nat, req: Request, r: Result<seq<Byte>>): Core {
    c.(lock := Free, log := c.log + [Returned(t, req, r)])
  }

  function FailSticky(c: Core, t: nat, req: Request): Core {
    Return(c.(faulted := true), t, req, Err(WritebackFailed))
  }

  function Unwind(c: Core, t: nat, req: Request): Core {
    c.(poisoned := true, lock := Free, log := c.log + [Unwound(t, req)])
  }

  function Invoke(c: Core, t: nat, req: Request): Core {
    c.(log := c.log + [Invoked(t, req)])
  }

  /** A refusal before the lock is answered at once, whoever holds the lock. */
  function Refused(c: Core, t: nat, req: Request, e: Error): Core {
    c.(log := c.log + [Returned(t, req, Err(e))])
  }

  function Acquire(g: Setup, c: Core, t: nat, req: Request): Core
    requires c.lock.Free?
  {
    if c.poisoned then FailSticky(c, t, req)
    else if c.faulted then Return(c, t, req, Err(WritebackFailed))
    else match req
      case Read(offset, n) =>
        if !RangeOk(g.length, offset, n) then Return(c, t, req, Err(InvalidRange))
        else if n == 0 then Return(c, t, req, Ok([]))
        else if offset + n + 511 >= U64_LIMIT || Span(req) > MAX_TRANSFER then Return(c, t, req, Err(InvalidRange))
        else c.(lock := Held(t, req, StatRead))
      case Write(offset, data) =>
        if data == [] then Return(c, t, req, Ok([])) else c.(lock := Held(t, req, StatWrite))
      case Flush => c.(lock := Held(t, req, StatSync))
  }

  /** The ciphertext a write puts on the file. */
  ghost function Buffer(g: Setup, req: Request): (b: seq<Byte>)
    requires Fits(g) && req.Write? && |req.data| % 512 == 0
    ensures |b| == |req.data|
  {
    Crypt(g.cipher, Encrypt, g.key, FirstSector(req.offset), req.data)
  }

  /** The answer a read builds from the ciphertext of its span. */
  ghost function Answer(g: Setup, req: Request, got: seq<Byte>): seq<Byte>
    requires Fits(g) && req.Read? && req.len > 0 && |got| == Span(req)
  {
    var start := req.offset - 512 * FirstSector(req.offset);
    SpanFits(|got| + 512 * FirstSector(req.offset), req.offset, req.len);
    Crypt(g.cipher, Decrypt, g.key, FirstSector(req.offset), got)[start..start + req.len]
  }

  /** The lock is held only for a request that passed its checks, at a phase it goes through. */
  ghost predicate HeldOk(g: Setup, c: Core) {
    c.lock.Held? ==>
      match c.lock.phase
      case StatRead => ReadOk(g, c.lock.req)
      case Reading(got) => ReadOk(g, c.lock.req) && |got| < Span(c.lock.req)
      case StatWrite => WriteOk(g, c.lock.req)
      case Writing(done) => WriteOk(g, c.lock.req) && done < |c.lock.req.data|
      case StatSync => c.lock.req.Flush? || WriteOk(g, c.lock.req)
      case Syncing => g.mode.ReadWriteMode? && (c.lock.req.Flush? || WriteOk(g, c.lock.req))
  }

  predicate ReadOk(g: Setup, req: Request) {
    req.Read? && req.len > 0 && RangeOk(g.length, req.offset, req.len) && Span(req) <= MAX_TRANSFER
  }

  predicate WriteOk(g: Setup, req: Request) {
    && req.Write? && g.mode.ReadWriteMode? && req.data != []
    && RangeOk(g.length, req.offset, |req.data|) && Aligned(req.offset, |req.data|)
  }

  ghost predicate Ready(g: Setup, c: Core) {
    Fits(g) && Shaped(c.disk) && |c.disk.visible| == g.fileLen && HeldOk(g, c)
  }

  /** What one call leads to: the next phase, an answer, which may fault the session, or a panic. */
  datatype Turn =
    | Go(disk: Disk, phase: Phase)
    | Answered(disk: Disk, result: Result<seq<Byte>>, fault: bool)
    | Panics

  /** A read that fails faults the session only when it can write. */
  function ReadFailed(g: Setup, d: Disk): Turn {
    if g.mode.ReadWriteMode? then Answered(d, Err(WritebackFailed), true) else Answered(d, Err(BackendIo), false)
  }

  ghost function TurnOf(g: Setup, c: Core, a: Action): Turn
    requires Ready(g, c) && c.lock.Held?
  {
    var d, req := c.disk, c.lock.req;
    if a.Panic? then Panics
    else match c.lock.phase
      case StatRead => if Completes(a) then Go(d, Reading([])) else ReadFailed(g, d)
      case Reading(got) =>
        var m := Amount(a, Span(req) - |got|);
        if a.Interrupted? then Go(d, Reading(got))
        else if m == 0 then ReadFailed(g, d)
        else
          var at := ReadStart(g, req) + |got|;
          ReadFits(g, req);
          var more := got + d.visible[at..at + m];
          if |more| == Span(req) then Answered(d, Ok(Answer(g, req, more)), false) else Go(d, Reading(more))
      case StatWrite => if Completes(a) then Go(d, Writing(0)) else Answered(d, Err(WritebackFailed), true)
      case Writing(done) =>
        var m := Amount(a, |req.data| - done);
        if a.Interrupted? then Go(d, Writing(done))
        else if m == 0 then Answered(d, Err(WritebackFailed), true)
        else
          Go(Put(d, g.offset + req.offset + done, Buffer(g, req)[done..done + m]),
             if done + m == |req.data| then StatSync else Writing(done + m))
      case StatSync =>
        if !Completes(a) then Answered(d, Err(WritebackFailed), true)
        else if g.mode.ReadOnlyMode? then Answered(d, Ok([]), false)
        else Go(d, Syncing)
      case Syncing =>
        if Completes(a) then Answered(Synced(d), Ok([]), false)
        else Answered(SyncLost(d), Err(WritebackFailed), true)
  }

  ghost function Call(g: Setup, c: Core, a: Action): (r: Core)
    requires Ready(g, c) && c.lock.Held?
  {
    var t, req := c.lock.tid, c.lock.req;
    match TurnOf(g, c, a)
    case Panics => Unwind(c, t, req)
    case Answered(d, result, fault) => Return(c.(disk := d, faulted := c.faulted || fault), t, req, result)
    case Go(d, phase) =>
      var log := if c.lock.phase.StatWrite? then c.log + [Began(t, req.offset, req.data)] else c.log;
      c.(disk := d, lock := Held(t, req, phase), log := log)
  }

  function ReadStart(g: Setup, req: Request): nat
    requires req.Read?
  {
    g.offset + 512 * FirstSector(req.offset)
  }

  lemma ReadFits(g: Setup, req: Request)
    requires Fits(g) && ReadOk(g, req)
    ensures ReadStart(g, req) + Span(req) <= g.offset + g.length && Span(req) > 0
  {
    SpanFits(g.length, req.offset, req.len);
  }

  lemma AcquireReady(g: Setup, c: Core, t: nat, req: Request)
    requires Ready(g, c) && c.lock.Free? && Refusal(g, false, req).None?
    ensures Ready(g, Acquire(g, c, t, req))
  {
  }

  lemma CallReady(g: Setup, c: Core, a: Action)
    requires Ready(g, c) && c.lock.Held?
    ensures Ready(g, Call(g, c, a))
  {
    hide TurnOf;
    TurnReady(g, c, a);
  }

  lemma TurnReady(g: Setup, c: Core, a: Action)
    requires Ready(g, c) && c.lock.Held?
    ensures match TurnOf(g, c, a)
      case Panics => true
      case Answered(d, _, _) => Shaped(d) && |d.visible| == g.fileLen
      case Go(d, phase) => Ready(g, c.(disk := d, lock := Held(c.lock.tid, c.lock.req, phase)))
  {
    hide Put, Synced, Span, Buffer, Answer;
    if c.lock.req.Read? {
      ReadFits(g, c.lock.req);
    }
  }

  /** How a call moves the flags and the history. */
  lemma CallEffect(g: Setup, c: Core, a: Action)
    requires Ready(g, c) && c.lock.Held? && !c.poisoned
    ensures var r := Call(g, c, a);
      && c.log <= r.log && |r.log| <= |c.log| + 1
      && (c.faulted ==> r.faulted)
      && (r.lock.Held? ==> r.lock.tid == c.lock.tid && r.lock.req == c.lock.req && !r.poisoned)
      && (r.lock.Free? ==> |r.log| == |c.log| + 1)
      && (r.poisoned <==> |r.log| > |c.log| && r.log[|c.log|].Unwound?)
  {
    hide TurnOf;
  }

  /** No read reaches the 64-bit overflow refusal. */
  lemma NoReadOverflows(g: Setup, offset: u64, n: nat)
    requires Fits(g) && RangeOk(g.length, offset, n)
    ensures offset + n + 511 < U64_LIMIT
    ensures g.offset + 512 * FirstSector(offset) < U64_LIMIT
  {
  }
}
