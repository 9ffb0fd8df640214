/**
 Any number of callback threads and the publishing thread over one session.
 A step is one atomic action of one thread: entering a callback, the checks before
 the lock, taking the lock, one operating-system call under it, or marking the
 session faulted. The publishing thread flushes, stops, drains and samples as
 `BlockAdapter::shutdown` and `wl_close` do.
 */
module Threads {
  import opened Basics
  import opened Images
  import opened Device
  import opened Durability

  /** Where a callback is; `Unwinding` has panicked and still has to mark the fault. */
  datatype Pc = Entered(req: Request) | Waiting(req: Request) | Holding | Unwinding

  /** The publishing thread, which runs its final flush as thread `MAIN`. */
  datatype Main =
    | Serving
    | Flushing
    | Flushed(failed: bool)
    | Stopped(failed: bool)
    | Draining(failed: bool, before: u32)
    | Drained(failed: bool, transport: u32)
    | Closed(verdict: bool, failed: bool, transport: u32)
    | Aborted

  const MAIN: nat := 0
  const OPERATION_ABORTED: u32 := 995

  datatype State = State(core: Core, stopping: bool, threads: map<nat, Pc>, main: Main)

  datatype Step =
    | Enter(t: nat, req: Request)
    | Check(t: nat)
    | Lock(t: nat)
    | Os(a: Action)
    | Mark(t: nat)
    | MainMark
    | StartFlush
    | EndFlush
    | Stop
    | QueryBefore(code: u32)
    | Wait(after: u32)
    | Sample

  /** The dispatcher delivers callbacks until the wait for its threads has returned, if it ever does. */
  predicate Dispatching(m: Main) {
    !m.Drained? && !m.Closed?
  }

  predicate Enabled(s: State, step: Step) {
    match step
    case Enter(t, _) => Dispatching(s.main) && t != MAIN && t !in s.threads
    case Check(t) => t in s.threads && s.threads[t].Entered?
    case Lock(t) => t in s.threads && s.threads[t].Waiting? && s.core.lock.Free?
    case Os(_) => s.core.lock.Held?
    case Mark(t) => t in s.threads && s.threads[t].Unwinding?
    case MainMark => s.main.Serving?
    case StartFlush => s.main.Serving?
    case EndFlush => s.main.Flushing? && MAIN !in s.threads
    case Stop => s.main.Flushed?
    case QueryBefore(_) => s.main.Stopped?
    case Wait(_) => s.main.Draining? && s.threads == map[]
    case Sample => s.main.Drained?
  }

  /** `wl_close`: an error seen before the stop wins; the abort it causes itself is not one. */
  function CloseCode(before: u32, after: u32): u32 {
    if before != 0 then before else if after == OPERATION_ABORTED then 0 else after
  }

  /** Whether thread `t` has yet to be given a successful answer, or was last given an error. */
  predicate LastFailed(log: seq<Event>, t: nat) {
    log == [] ||
    var e := log[|log| - 1];
    if e.Returned? && e.tid == t then e.result.Err? else LastFailed(log[..|log| - 1], t)
  }

  ghost predicate WellFormed(g: Setup, s: State) {
    Ready(g, s.core)
  }

  ghost function Next(g: Setup, s: State, step: Step): State
    requires WellFormed(g, s) && Enabled(s, step)
  {
    match step
    case Enter(t, req) => s.(core := Invoke(s.core, t, req), threads := s.threads[t := Entered(req)])
    case Check(t) =>
      var req := s.threads[t].req;
      (match Refusal(g, s.stopping, req)
       case Some(e) => s.(core := Refused(s.core, t, req, e), threads := s.threads - {t})
       case None => s.(threads := s.threads[t := Waiting(req)]))
    case Lock(t) =>
      var c := Acquire(g, s.core, t, s.threads[t].req);
      s.(core := c, threads := if c.lock.Held? then s.threads[t := Holding] else s.threads - {t})
    case Os(a) =>
      var t, c := s.core.lock.tid, Call(g, s.core, a);
      if c.lock.Held? then s.(core := c)
      else if !c.poisoned then s.(core := c, threads := s.threads - {t})
      else if t == MAIN then s.(core := c, threads := s.threads - {t}, main := Aborted)
      else s.(core := c, threads := s.threads[t := Unwinding])
    case Mark(t) => s.(core := s.core.(faulted := true), threads := s.threads - {t})
    case MainMark => s.(core := s.core.(faulted := true))
    case StartFlush =>
      s.(core := Invoke(s.core, MAIN, Flush), threads := s.threads[MAIN := Waiting(Flush)], main := Flushing)
    case EndFlush => s.(main := Flushed(LastFailed(s.core.log, MAIN)))
    case Stop => s.(stopping := true, main := Stopped(s.main.failed))
    case QueryBefore(code) => s.(main := Draining(s.main.failed, code))
    case Wait(after) => s.(main := Drained(s.main.failed, CloseCode(s.main.before, after)))
    case Sample =>
      s.(main := Closed(s.main.failed || s.main.transport != 0 || s.core.faulted, s.main.failed, s.main.transport))
  }

  function Initial(file: seq<Byte>): State {
    State(Start(file), false, map[], Serving)
  }

  // ---- what every step keeps ----

  /** The request thread `t` is waiting for an answer to. */
  function Open(log: seq<Event>, t: nat): Option<Request> {
    if log == [] then None
    else
      var e := log[|log| - 1];
      if e.tid != t || e.Began? then Open(log[..|log| - 1], t)
      else if e.Invoked? then Some(e.req) else None
  }

  /** The event logged at `k` answers the one open request of its thread, or opens one when none is. */
  predicate Bracketed(log: seq<Event>, k: nat)
    requires k < |log|
  {
    var e := log[k];
    e.Began? || Open(log[..k], e.tid) == if e.Invoked? then None else Some(e.req)
  }

  ghost predicate AllBracketed(log: seq<Event>) {
    forall k: nat :: k < |log| ==> Bracketed(log, k)
  }

  /** Between entering and answering, the open request of a thread is the one it carries. */
  ghost predicate OpenOk(s: State, t: nat) {
    OpenAs(s, t, Open(s.core.log, t))
  }

  ghost predicate BracketsOk(s: State) {
    AllBracketed(s.core.log) && forall t: nat :: OpenOk(s, t)
  }

  /** The callback that holds the lock is the only one inside; a poisoned lock is not silent. */
  ghost predicate ThreadsOk(g: Setup, s: State) {
    && (forall t :: t in s.threads && s.threads[t].Waiting? ==> Refusal(g, false, s.threads[t].req).None?)
    && (s.core.lock.Held? ==> s.core.lock.tid in s.threads && s.threads[s.core.lock.tid].Holding?)
    && (forall t :: t in s.threads && s.threads[t].Holding? ==> s.core.lock.Held? && s.core.lock.tid == t)
    && (forall t :: t in s.threads && s.threads[t].Unwinding? ==> s.core.poisoned)
    && (s.core.poisoned ==> s.core.faulted || s.main.Aborted? || exists t :: t in s.threads && s.threads[t].Unwinding?)
    && (MAIN in s.threads ==> s.main.Flushing? && !s.threads[MAIN].Unwinding? && !s.threads[MAIN].Entered?)
  }

  /** Panics leave the lock poisoned. */
  ghost predicate PanicsOk(c: Core) {
    forall k :: 0 <= k < |c.log| && c.log[k].Unwound? ==> c.poisoned
  }

  ghost predicate MainOk(s: State) {
    && (s.main.Stopped? || s.main.Draining? || s.main.Drained? || s.main.Closed? ==> s.stopping)
    && (s.main.Drained? || s.main.Closed? ==> s.threads == map[])
    && (s.main.Closed? ==> (s.main.verdict <==> s.core.faulted || s.main.failed || s.main.transport != 0))
    && (s.main.Closed? && !s.main.verdict ==> !s.core.poisoned)
  }

  ghost predicate Sane(g: Setup, init: seq<Byte>, s: State) {
    Inv(g, init, s.core) && ThreadsOk(g, s) && PanicsOk(s.core) && MainOk(s) && BracketsOk(s)
  }

  lemma InitialSane(g: Setup, file: seq<Byte>)
    requires Fits(g) && |file| == g.fileLen
    ensures Sane(g, file, Initial(file))
  {
    StartInv(g, file);
  }

  lemma RefusedInv(g: Setup, init: seq<Byte>, c: Core, t: nat, req: Request, e: Error)
    requires Inv(g, init, c)
    ensures Inv(g, init, Refused(c, t, req, e))
  {
    hide Plain, Overlay, Suspect, Unacknowledged, AnswersAgree, SameFrame, Settled, Sound, InPlace;
    AppendQuiet(Plain(g, init), c.log, Returned(t, req, Err(e)));
  }

  lemma InvokedInv(g: Setup, init: seq<Byte>, c: Core, t: nat, req: Request)
    requires Inv(g, init, c)
    ensures Inv(g, init, Invoke(c, t, req))
  {
    hide Plain, Overlay, Suspect, Unacknowledged, AnswersAgree, SameFrame, Settled, Sound, InPlace;
    AppendQuiet(Plain(g, init), c.log, Invoked(t, req));
  }

  lemma MarkedInv(g: Setup, init: seq<Byte>, c: Core)
    requires Inv(g, init, c)
    ensures Inv(g, init, c.(faulted := true))
  {
    hide Plain, Overlay, Suspect, Unacknowledged, AnswersAgree, SameFrame, Settled, Sound, InPlace;
  }

  /** The part of a step that touches the session keeps its invariant. */
  lemma NextInv(g: Setup, init: seq<Byte>, s: State, step: Step)
    requires Sane(g, init, s) && Enabled(s, step)
    ensures Inv(g, init, Next(g, s, step).core)
  {
    hide Inv, PanicsOk, MainOk, BracketsOk, Acquire, Call;
    assert WellFormed(g, s) && Fits(g) by { InvReady(g, init, s.core); }
    match step
    case Enter(t, req) => InvokedInv(g, init, s.core, t, req);
    case StartFlush => InvokedInv(g, init, s.core, MAIN, Flush);
    case Check(t) =>
      if Refusal(g, s.stopping, s.threads[t].req).Some? {
        RefusedInv(g, init, s.core, t, s.threads[t].req, Refusal(g, s.stopping, s.threads[t].req).value);
      }
    case Lock(t) => AcquireInv(g, init, s.core, t, s.threads[t].req);
    case Os(a) => CallInv(g, init, s.core, a);
    case Mark(_) => MarkedInv(g, init, s.core);
    case MainMark => MarkedInv(g, init, s.core);
    case _ =>
  }

  lemma InvReady(g: Setup, init: seq<Byte>, c: Core)
    requires Inv(g, init, c)
    ensures Ready(g, c) && Fits(g) && |init| == g.fileLen
    ensures c.lock.Held? ==> !c.poisoned
  {
  }

  /** After the stop no request gets past its checks: it is answered at once and never takes the lock. */
  lemma StopRefuses(g: Setup, s: State, t: nat)
    requires WellFormed(g, s) && s.stopping && Enabled(s, Check(t))
    ensures var r, req := Next(g, s, Check(t)), s.threads[t].req;
      var error := if req.Write? && g.mode == ReadOnlyMode then ReadOnly else Stopping;
      t !in r.threads && r.core == s.core.(log := s.core.log + [Returned(t, req, Err(error))])
  {
  }

  /** A step logs nothing, a `Began`, or one event of one thread. */
  lemma OpenAppend(log: seq<Event>, e: Event, t: nat)
    ensures Open(log + [e], t)
      == if e.tid != t || e.Began? then Open(log, t) else if e.Invoked? then Some(e.req) else None
  {
    assert (log + [e])[..|log|] == log;
  }

  lemma BracketAppend(log: seq<Event>, e: Event)
    requires AllBracketed(log)
    requires e.Began? || Open(log, e.tid) == if e.Invoked? then None else Some(e.req)
    ensures AllBracketed(log + [e])
  {
    hide Open;
    forall k: nat | k < |log + [e]| ensures Bracketed(log + [e], k) {
      if k < |log| {
        assert Bracketed(log, k) && (log + [e])[..k] == log[..k];
      } else {
        assert (log + [e])[..k] == log;
      }
    }
  }

  /** One more event, answered or opened by the thread whose place moves with it. */
  lemma BracketsMove(s: State, r: State)
    requires BracketsOk(s)
    requires |r.core.log| == |s.core.log| + 1 && r.core.log == s.core.log + [r.core.log[|s.core.log|]]
    requires var e := r.core.log[|s.core.log|];
      && (e.Began? || Open(s.core.log, e.tid) == if e.Invoked? then None else Some(e.req))
      && forall t: nat :: if t != e.tid || e.Began? then OpenOk(s, t) ==> OpenAs(r, t, Open(s.core.log, t))
                          else OpenAs(r, t, if e.Invoked? then Some(e.req) else None)
    ensures BracketsOk(r)
  {
    hide Open, AllBracketed;
    var e := r.core.log[|s.core.log|];
    BracketAppend(s.core.log, e);
    forall t: nat ensures OpenOk(r, t) {
      assert OpenOk(s, t);
      OpenAppend(s.core.log, e, t);
    }
  }

  /** The place of thread `t` asks for `open` as its open request. */
  ghost predicate OpenAs(s: State, t: nat, open: Option<Request>) {
    open ==
      if t !in s.threads || s.threads[t].Unwinding? then None
      else if s.threads[t].Holding? then (if s.core.lock.Held? then Some(s.core.lock.req) else None)
      else Some(s.threads[t].req)
  }

  lemma NextBrackets(g: Setup, init: seq<Byte>, s: State, step: Step)
    requires Sane(g, init, s) && Enabled(s, step)
    ensures WellFormed(g, s) && BracketsOk(Next(g, s, step))
  {
    hide Inv, Acquire, Call, Ready, Refusal, MainOk, Open, PanicsOk, AllBracketed, BracketsOk, ThreadsOk;
    InvReady(g, init, s.core);
    match step
    case Os(a) => OsBrackets(g, init, s, a);
    case Lock(t) => LockBrackets(g, init, s, t);
    case _ => OtherBrackets(g, init, s, step);
  }

  lemma OsBrackets(g: Setup, init: seq<Byte>, s: State, a: Action)
    requires Sane(g, init, s) && s.core.lock.Held?
    ensures WellFormed(g, s) && BracketsOk(Next(g, s, Os(a)))
  {
    hide Inv, Acquire, Call, Ready, Refusal, MainOk, Open, PanicsOk, AllBracketed;
    InvReady(g, init, s.core);
    CallLogs(g, s.core, a);
    var r := Next(g, s, Os(a));
    if r.core.log != s.core.log {
      assert OpenOk(s, r.core.log[|s.core.log|].tid);
      BracketsMove(s, r);
    } else {
      forall t: nat ensures OpenOk(r, t) {
        assert OpenOk(s, t);
      }
    }
  }

  lemma LockBrackets(g: Setup, init: seq<Byte>, s: State, t: nat)
    requires Sane(g, init, s) && Enabled(s, Lock(t))
    ensures WellFormed(g, s) && BracketsOk(Next(g, s, Lock(t)))
  {
    hide Inv, Acquire, Call, Ready, Refusal, MainOk, Open, PanicsOk, AllBracketed;
    InvReady(g, init, s.core);
    AcquireLogs(g, s.core, t, s.threads[t].req);
    var r := Next(g, s, Lock(t));
    assert OpenOk(s, t);
    if r.core.log != s.core.log {
      BracketsMove(s, r);
    } else {
      forall u: nat ensures OpenOk(r, u) {
        assert OpenOk(s, u);
      }
    }
  }

  lemma OtherBrackets(g: Setup, init: seq<Byte>, s: State, step: Step)
    requires Sane(g, init, s) && Enabled(s, step) && !step.Os? && !step.Lock?
    ensures WellFormed(g, s) && BracketsOk(Next(g, s, step))
  {
    hide Inv, Acquire, Call, Ready, Refusal, MainOk, Open, PanicsOk, AllBracketed, BracketsOk;
    InvReady(g, init, s.core);
    if step.Enter? || step.StartFlush? || step.Check? {
      EntryBrackets(g, init, s, step);
    } else {
      QuietBrackets(g, init, s, step);
    }
  }

  lemma EntryBrackets(g: Setup, init: seq<Byte>, s: State, step: Step)
    requires Sane(g, init, s) && Enabled(s, step) && (step.Enter? || step.StartFlush? || step.Check?)
    ensures WellFormed(g, s) && BracketsOk(Next(g, s, step))
  {
    hide Inv, Acquire, Call, Ready, Refusal, MainOk, Open, PanicsOk, AllBracketed;
    InvReady(g, init, s.core);
    var r := Next(g, s, step);
    if r.core.log != s.core.log {
      assert OpenOk(s, r.core.log[|s.core.log|].tid);
      BracketsMove(s, r);
    } else {
      SameBrackets(s, r);
    }
  }

  lemma QuietBrackets(g: Setup, init: seq<Byte>, s: State, step: Step)
    requires Sane(g, init, s) && Enabled(s, step)
    requires !step.Os? && !step.Lock? && !step.Enter? && !step.StartFlush? && !step.Check?
    ensures WellFormed(g, s) && BracketsOk(Next(g, s, step))
  {
    hide Inv, Acquire, Call, Ready, Refusal, MainOk, Open, PanicsOk, AllBracketed;
    InvReady(g, init, s.core);
    SameBrackets(s, Next(g, s, step));
  }

  /** Nothing is logged, and every thread still carries its request, or has neither place nor request. */
  lemma SameBrackets(s: State, r: State)
    requires BracketsOk(s) && r.core.log == s.core.log
    requires forall t: nat :: OpenOk(s, t) ==> OpenAs(r, t, Open(s.core.log, t))
    ensures BracketsOk(r)
  {
    hide Open, AllBracketed;
    forall t: nat ensures OpenOk(r, t) {
      assert OpenOk(s, t);
    }
  }

  lemma CallLogs(g: Setup, c: Core, a: Action)
    requires Ready(g, c) && c.lock.Held?
    ensures var r, t, req, k := Call(g, c, a), c.lock.tid, c.lock.req, |c.log|;
      if r.lock.Held? then
        && r.lock.tid == t && r.lock.req == req && r.poisoned == c.poisoned
        && (r.log == c.log || (|r.log| == k + 1 && r.log == c.log + [r.log[k]] && r.log[k].Began? && r.log[k].tid == t))
      else
        && |r.log| == k + 1 && r.log == c.log + [r.log[k]]
        && (r.log[k] == Unwound(t, req) || (r.log[k].Returned? && r.log[k].tid == t && r.log[k].req == req))
        && (!c.poisoned ==> (r.poisoned <==> r.log[k].Unwound?))
  {
    hide TurnOf;
  }

  lemma AcquireLogs(g: Setup, c: Core, t: nat, req: Request)
    requires c.lock.Free?
    ensures var r := Acquire(g, c, t, req);
      if r.lock.Held? then r.log == c.log && r.lock.tid == t && r.lock.req == req
      else |r.log| == |c.log| + 1 && r.log == c.log + [r.log[|c.log|]] && r.log[|c.log|].Returned?
           && r.log[|c.log|].tid == t && r.log[|c.log|].req == req
  {
  }

  lemma AcquireFlags(g: Setup, c: Core, t: nat, req: Request)
    requires c.lock.Free?
    ensures var r := Acquire(g, c, t, req);
      && r.poisoned == c.poisoned && (c.faulted ==> r.faulted) && r.disk == c.disk
      && (r.lock.Held? ==> r.lock.tid == t && r.log == c.log && !c.poisoned && !c.faulted)
      && (r.lock.Free? ==> |r.log| == |c.log| + 1 && c.log <= r.log && r.log[|c.log|].Returned?)
  {
  }

  lemma NextThreads(g: Setup, init: seq<Byte>, s: State, step: Step)
    requires Sane(g, init, s) && Enabled(s, step)
    ensures WellFormed(g, s) && ThreadsOk(g, Next(g, s, step)) && PanicsOk(Next(g, s, step).core)
      && MainOk(Next(g, s, step))
  {
    hide Inv, Acquire, Call, Ready, Refusal, BracketsOk;
    InvReady(g, init, s.core);
    match step
    case Os(a) => NextOs(g, init, s, a);
    case Lock(t) => NextLock(g, init, s, t);
    case _ => NextOther(g, init, s, step);
  }

  lemma NextOs(g: Setup, init: seq<Byte>, s: State, a: Action)
    requires Sane(g, init, s) && s.core.lock.Held?
    ensures WellFormed(g, s) && ThreadsOk(g, Next(g, s, Os(a))) && PanicsOk(Next(g, s, Os(a)).core)
      && MainOk(Next(g, s, Os(a)))
  {
    hide Inv, Acquire, Call, Ready, Refusal, BracketsOk;
    InvReady(g, init, s.core);
    CallEffect(g, s.core, a);
    var t, r := s.core.lock.tid, Next(g, s, Os(a));
    if r.core.poisoned && t != MAIN {
      assert t in r.threads && r.threads[t].Unwinding?;
    }
  }

  lemma NextLock(g: Setup, init: seq<Byte>, s: State, t: nat)
    requires Sane(g, init, s) && Enabled(s, Lock(t))
    ensures WellFormed(g, s) && ThreadsOk(g, Next(g, s, Lock(t))) && PanicsOk(Next(g, s, Lock(t)).core)
      && MainOk(Next(g, s, Lock(t)))
  {
    hide Inv, Acquire, Call, Ready, Refusal, BracketsOk;
    InvReady(g, init, s.core);
    AcquireFlags(g, s.core, t, s.threads[t].req);
    var r := Next(g, s, Lock(t));
    assert forall u :: u in s.threads && u != t ==> u in r.threads && r.threads[u] == s.threads[u];
  }

  lemma NextOther(g: Setup, init: seq<Byte>, s: State, step: Step)
    requires Sane(g, init, s) && Enabled(s, step) && !step.Os? && !step.Lock?
    ensures WellFormed(g, s) && ThreadsOk(g, Next(g, s, step)) && PanicsOk(Next(g, s, step).core)
      && MainOk(Next(g, s, step))
  {
    hide Inv, Acquire, Call, Ready, BracketsOk;
    InvReady(g, init, s.core);
    if step.Check? {
      NextCheck(g, init, s, step.t);
    } else if step.Enter? || step.StartFlush? {
      NextEntry(g, init, s, step);
    }
  }

  lemma NextCheck(g: Setup, init: seq<Byte>, s: State, t: nat)
    requires Sane(g, init, s) && Enabled(s, Check(t))
    ensures WellFormed(g, s) && ThreadsOk(g, Next(g, s, Check(t))) && PanicsOk(Next(g, s, Check(t)).core)
      && MainOk(Next(g, s, Check(t)))
  {
    hide Inv, Acquire, Call, Ready, BracketsOk, PanicsOk, Refusal;
    InvReady(g, init, s.core);
    var r := Next(g, s, Check(t));
    RefusalStops(g, s.stopping, s.threads[t].req);
    QuietPanics(s.core, r.core);
    assert forall u :: u in s.threads && u != t ==> u in r.threads && r.threads[u] == s.threads[u];
  }

  lemma FlushNotRefused(g: Setup)
    ensures Refusal(g, false, Flush).None?
  {
  }

  lemma RefusalStops(g: Setup, stopping: bool, req: Request)
    ensures Refusal(g, stopping, req).None? ==> Refusal(g, false, req).None?
  {
  }

  lemma NextEntry(g: Setup, init: seq<Byte>, s: State, step: Step)
    requires Sane(g, init, s) && Enabled(s, step) && (step.Enter? || step.StartFlush?)
    ensures WellFormed(g, s) && ThreadsOk(g, Next(g, s, step)) && PanicsOk(Next(g, s, step).core)
      && MainOk(Next(g, s, step))
  {
    hide Inv, Acquire, Call, Ready, BracketsOk, PanicsOk, Refusal;
    InvReady(g, init, s.core);
    FlushNotRefused(g);
    var r := Next(g, s, step);
    var t := if step.StartFlush? then MAIN else step.t;
    QuietPanics(s.core, r.core);
    assert forall u :: u in s.threads && u != t ==> u in r.threads && r.threads[u] == s.threads[u];
  }

  lemma QuietPanics(c: Core, r: Core)
    requires PanicsOk(c) && r.poisoned == c.poisoned
    requires r.log == c.log || (|r.log| == |c.log| + 1 && c.log <= r.log && !r.log[|c.log|].Unwound?)
    ensures PanicsOk(r)
  {
  }

  lemma NextSane(g: Setup, init: seq<Byte>, s: State, step: Step)
    requires Sane(g, init, s) && Enabled(s, step)
    ensures WellFormed(g, s) && Sane(g, init, Next(g, s, step))
  {
    InvReady(g, init, s.core);
    NextInv(g, init, s, step);
    NextThreads(g, init, s, step);
    NextBrackets(g, init, s, step);
  }
}
