/**
 Several publisher processes on one machine. Each runs `wl_create` and later `wl_close`
 of `native/winspd_shim.c`, one operating-system call at a time and in any interleaving.
 The named mutex exists while any process has it open, a refused one included.
 */
module Publication {
  import opened Basics
  import S = Shim

  datatype Resource = Heap | Guard | Unit | Dispatcher | Volume

  /** Where a process is; `locked` remembers that it keeps its mounted volume locked. */
  datatype Pc =
    | Idle
    | Allocated
    | Refused
    | Guarded
    | Named
    | UnitMade
    | Live(locked: bool)
    | Waiting(locked: bool)
    | Deleting(locked: bool)
    | Deleted(locked: bool)
    | Leaving
    | Freeing

  /** What one call does to the resources of its process. */
  datatype Op = Nothing | Take(r: Resource) | Drop(r: Resource)

  datatype Process = Process(pc: Pc, held: set<Resource>)

  /** `bad` is raised by taking what is held or giving back what is not. */
  datatype State = State(procs: map<nat, Process>, bad: bool)

  /** The call of process `p` succeeds or fails; on a live session `ok` locks the volume and failure closes. */
  datatype Step = Step(p: nat, ok: bool)

  ghost predicate GuardExists(s: State) {
    exists q :: q in s.procs && Guard in s.procs[q].held
  }

  /** The program: the next place and the call made there. `exists` is what the mutex call reports. */
  function Program(pc: Pc, existed: bool, ok: bool): (Pc, Op) {
    match pc
    case Idle => if ok then (Allocated, Take(Heap)) else (Idle, Nothing)
    case Allocated => if !ok then (Freeing, Nothing) else if existed then (Refused, Take(Guard))
      else (Guarded, Take(Guard))
    case Refused => (Freeing, Drop(Guard))
    case Guarded => if ok then (Named, Nothing) else (Leaving, Nothing)
    case Named => if ok then (UnitMade, Take(Unit)) else (Leaving, Nothing)
    case UnitMade => if ok then (Live(false), Take(Dispatcher)) else (Deleting(false), Nothing)
    case Live(locked) =>
      if !ok then (Waiting(locked), Nothing) else if locked then (pc, Nothing) else (Live(true), Take(Volume))
    case Waiting(locked) => (Deleting(locked), Drop(Dispatcher))
    case Deleting(locked) => (Deleted(locked), Drop(Unit))
    case Deleted(locked) => if locked then (Leaving, Drop(Volume)) else (Leaving, Nothing)
    case Leaving => (Freeing, Drop(Guard))
    case Freeing => (Idle, Drop(Heap))
  }

  ghost function Next(s: State, step: Step): State
    requires step.p in s.procs
  {
    var me := s.procs[step.p];
    var (pc, op) := Program(me.pc, GuardExists(s), step.ok);
    match op
    case Nothing => s.(procs := s.procs[step.p := Process(pc, me.held)])
    case Take(r) => State(s.procs[step.p := Process(pc, me.held + {r})], s.bad || r in me.held)
    case Drop(r) => State(s.procs[step.p := Process(pc, me.held - {r})], s.bad || r !in me.held)
  }

  ghost predicate Runnable(s: State, steps: seq<Step>)
    decreases |steps|
  {
    steps == [] || (steps[0].p in s.procs && Runnable(Next(s, steps[0]), steps[1..]))
  }

  ghost function Run(s: State, steps: seq<Step>): State
    requires Runnable(s, steps)
    decreases |steps|
  {
    if steps == [] then s else Run(Next(s, steps[0]), steps[1..])
  }

  /** Every process is about to start and holds nothing. */
  ghost predicate Fresh(s: State) {
    !s.bad && forall p :: p in s.procs ==> s.procs[p] == Process(Idle, {})
  }

  /** The process that created the mutex and has not let go of it. */
  predicate Owner(pc: Pc) {
    !pc.Idle? && !pc.Allocated? && !pc.Refused? && !pc.Freeing?
  }

  predicate Locks(pc: Pc) {
    (pc.Live? && pc.locked) || (pc.Waiting? && pc.locked) || (pc.Deleting? && pc.locked) || (pc.Deleted? && pc.locked)
  }

  /** What a process holds is determined by where it is. */
  predicate Holds(pr: Process) {
    && (Heap in pr.held <==> !pr.pc.Idle?)
    && (Guard in pr.held <==> Owner(pr.pc) || pr.pc.Refused?)
    && (Unit in pr.held <==> pr.pc.UnitMade? || pr.pc.Live? || pr.pc.Waiting? || pr.pc.Deleting?)
    && (Dispatcher in pr.held <==> pr.pc.Live? || pr.pc.Waiting?)
    && (Volume in pr.held <==> Locks(pr.pc))
  }

  ghost predicate Inv(s: State) {
    && !s.bad
    && (forall p :: p in s.procs ==> Holds(s.procs[p]))
    && (forall p, q :: p in s.procs && q in s.procs && Owner(s.procs[p].pc) && Owner(s.procs[q].pc) ==> p == q)
  }

  /** One process: its calls fit what it holds, and only a new mutex makes it the owner. */
  lemma ProgramHolds(me: Process, existed: bool, ok: bool)
    requires Holds(me)
    ensures var (pc, op) := Program(me.pc, existed, ok);
      && (Owner(pc) ==> Owner(me.pc) || !existed)
      && match op
         case Nothing => Holds(Process(pc, me.held))
         case Take(r) => r !in me.held && Holds(Process(pc, me.held + {r}))
         case Drop(r) => r in me.held && Holds(Process(pc, me.held - {r}))
  {
  }

  lemma NextInv(s: State, step: Step)
    requires Inv(s) && step.p in s.procs
    ensures Inv(Next(s, step))
  {
    hide Program;
    var me := s.procs[step.p];
    var r := Next(s, step);
    ProgramHolds(me, GuardExists(s), step.ok);
    if !Owner(me.pc) && Owner(r.procs[step.p].pc) {
      forall q | q in s.procs ensures !Owner(s.procs[q].pc) {
        assert Holds(s.procs[q]);
      }
    }
  }

  lemma {:induction false} RunInv(s: State, steps: seq<Step>)
    requires Inv(s) && Runnable(s, steps)
    ensures Inv(Run(s, steps))
    decreases |steps|
  {
    hide Next, Inv;
    if steps != [] {
      NextInv(s, steps[0]);
      RunInv(Next(s, steps[0]), steps[1..]);
    }
  }

  /**
   One publisher at a time, whatever the interleaving and whichever calls fail: at most one
   unit exists, and its process has the guard from before the unit is made until after it is
   gone. A volume once locked stays locked past the deletion of its unit. Nothing is taken
   twice or given back twice, and a process that has left holds nothing.
   */
  lemma OnePublisher(s: State, steps: seq<Step>)
    requires Fresh(s) && Runnable(s, steps)
    ensures var r := Run(s, steps);
      && !r.bad
      && (forall p, q :: p in r.procs && q in r.procs && Unit in r.procs[p].held && Unit in r.procs[q].held ==> p == q)
      && (forall p :: p in r.procs && Unit in r.procs[p].held ==> Guard in r.procs[p].held)
      && (forall p :: p in r.procs && Locks(r.procs[p].pc) ==> Volume in r.procs[p].held && Guard in r.procs[p].held)
      && (forall p :: p in r.procs && r.procs[p].pc.Idle? ==> r.procs[p].held == {})
  {
    RunInv(s, steps);
    var r := Run(s, steps);
    forall p | p in r.procs && r.procs[p].pc.Idle? ensures r.procs[p].held == {} {
      assert Holds(r.procs[p]);
      forall x | x in r.procs[p].held ensures false {
        match x case Heap => case Guard => case Unit => case Dispatcher => case Volume =>
      }
    }
  }

  /** While a unit exists, a second process that asks for the guard is refused. */
  lemma SecondIsRefused(s: State, steps: seq<Step>, p: nat, q: nat)
    requires Fresh(s) && Runnable(s, steps)
    requires var r := Run(s, steps);
      p in r.procs && q in r.procs && Unit in r.procs[p].held && r.procs[q].pc.Allocated?
    ensures Next(Run(s, steps), Step(q, true)).procs[q].pc == Refused
  {
    RunInv(s, steps);
    var r := Run(s, steps);
    assert Holds(r.procs[p]) && Guard in r.procs[p].held;
  }

  // ---- the order of release, step by step ----

  /**
   In every run no step lets go of the locked volume while the unit exists, none lets go of
   the guard while the unit or the volume is held, and none deletes the unit while its
   dispatcher runs.
   */
  lemma ReleaseOrder(s: State, steps: seq<Step>, step: Step)
    requires Fresh(s) && Runnable(s, steps) && step.p in Run(s, steps).procs
    ensures var r := Run(s, steps);
      var had, has := r.procs[step.p].held, Next(r, step).procs[step.p].held;
      && (Volume in had && Volume !in has ==> Unit !in had)
      && (Guard in had && Guard !in has ==> Unit !in had && Volume !in had)
      && (Unit in had && Unit !in has ==> Dispatcher !in had)
  {
    RunInv(s, steps);
    assert Holds(Run(s, steps).procs[step.p]);
  }

  // ---- the program is that of the bridge ----

  /** What a process takes and drops from its `i`-th call on, given how the calls come out. */
  function Trace(pc: Pc, existed: bool, oks: seq<bool>, i: nat): seq<Op>
    requires i <= |oks|
    decreases |oks| - i
  {
    if i == |oks| then []
    else
      var (next, op) := Program(pc, existed, oks[i]);
      var rest := Trace(next, existed, oks, i + 1);
      if op.Nothing? then rest else [op] + rest
  }

  function Arrives(pc: Pc, existed: bool, oks: seq<bool>, i: nat): Pc
    requires i <= |oks|
    decreases |oks| - i
  {
    if i == |oks| then pc else Arrives(Program(pc, existed, oks[i]).0, existed, oks, i + 1)
  }

  function ResourceOf(h: S.Handle): Resource
    requires !h.Search?
  {
    match h
    case HeapBlock => Heap
    case Guard => Guard
    case Unit => Unit
    case Dispatcher => Dispatcher
    case Volume(_) => Volume
  }

  /** The handles opened and closed by the calls of the bridge from the `i`-th on, in order. */
  function Ledger(calls: seq<S.OsCall>, i: nat): seq<Op>
    requires i <= |calls|
    decreases |calls| - i
  {
    if i == |calls| then []
    else
      var rest := Ledger(calls, i + 1);
      match calls[i]
      case Opened(h) => if h.Search? then rest else [Take(ResourceOf(h))] + rest
      case Released(h) => if h.Search? then rest else [Drop(ResourceOf(h))] + rest
      case _ => rest
  }

  /** How the calls of a publication come out, up to its end. */
  function Outcomes(env: S.Publication): seq<bool> {
    if env.blocks == 0 || !env.heap then [false]
    else match env.mutex
      case OldMutex => [true, true, true, true]
      case NoMutex(_) => [true, false, true]
      case NewMutex =>
        if !env.guid then [true, true, false, true, true]
        else if env.create != 0 then [true, true, true, false, true, true]
        else if env.start != 0 then [true, true, true, true, false, true, true, true, true]
        else [true, true, true, true, true]
  }

  lemma TraceStep(pc: Pc, existed: bool, oks: seq<bool>, i: nat)
    requires i < |oks|
    ensures var (next, op) := Program(pc, existed, oks[i]);
      && Trace(pc, existed, oks, i)
         == (if op.Nothing? then Trace(next, existed, oks, i + 1) else [op] + Trace(next, existed, oks, i + 1))
      && Arrives(pc, existed, oks, i) == Arrives(next, existed, oks, i + 1)
    ensures Trace(pc, existed, oks, |oks|) == [] && Arrives(pc, existed, oks, |oks|) == pc
  {
  }

  /** From the guard on, a process that gives up leaves through its mutex and its memory. */
  lemma LeavingTrace(existed: bool, oks: seq<bool>, i: nat)
    requires i + 2 == |oks|
    ensures Trace(Leaving, existed, oks, i) == [Drop(Guard), Drop(Heap)] && Arrives(Leaving, existed, oks, i) == Idle
  {
    TraceStep(Leaving, existed, oks, i);
    TraceStep(Freeing, existed, oks, i + 1);
    TraceStep(Idle, existed, oks, i + 1);
  }

  lemma LedgerStep(calls: seq<S.OsCall>, i: nat)
    requires i < |calls|
    ensures var rest := Ledger(calls, i + 1);
      match calls[i]
      case Opened(h) => Ledger(calls, i) == if h.Search? then rest else [Take(ResourceOf(h))] + rest
      case Released(h) => Ledger(calls, i) == if h.Search? then rest else [Drop(ResourceOf(h))] + rest
      case _ => Ledger(calls, i) == rest
    ensures Ledger(calls, |calls|) == []
  {
  }

  lemma LedgerTail(calls: seq<S.OsCall>, i: nat)
    requires i + 2 == |calls| && calls[i..] == [S.Released(S.Guard), S.Released(S.HeapBlock)]
    ensures Ledger(calls, i) == [Drop(Guard), Drop(Heap)]
  {
    assert calls[i] == calls[i..][0] && calls[i + 1] == calls[i..][1];
    LedgerStep(calls, i);
    LedgerStep(calls, i + 1);
  }

  /** The trace of a publication against its calls, and where it arrives. */
  ghost predicate SameProgram(env: S.Publication) {
    && Trace(Idle, env.mutex.OldMutex?, Outcomes(env), 0) == Ledger(S.CreateCalls(env), 0)
    && Arrives(Idle, env.mutex.OldMutex?, Outcomes(env), 0) == if S.Publishes(env) then Live(false) else Idle
  }

  /** A call of `wl_create` takes and drops what one process does, and ends published or where it began. */
  lemma CreateIsProgram(env: S.Publication)
    ensures SameProgram(env)
  {
    hide SameProgram;
    if env.blocks == 0 || !env.heap || env.mutex != S.NewMutex {
      UnguardedTrace(env);
    } else {
      GuardedTrace(env);
    }
  }

  lemma UnguardedTrace(env: S.Publication)
    requires env.blocks == 0 || !env.heap || env.mutex != S.NewMutex
    ensures SameProgram(env)
  {
    hide Trace, Arrives;
    var e, oks, calls := env.mutex.OldMutex?, Outcomes(env), S.CreateCalls(env);
    TraceStep(Idle, e, oks, 0);
    if env.blocks != 0 && env.heap {
      LedgerStep(calls, 0);
      LedgerStep(calls, 1);
      TraceStep(Allocated, e, oks, 1);
      TraceStep(if e then Refused else Freeing, e, oks, 2);
      if e {
        TraceStep(Freeing, e, oks, 3);
        LedgerTail(calls, 2);
      }
      TraceStep(Idle, e, oks, 0);
    }
  }

  /** The first three steps of a process that gets the guard. */
  lemma GuardedStart(env: S.Publication)
    requires env.blocks != 0 && env.heap && env.mutex == S.NewMutex
    ensures var oks, pc := Outcomes(env), if env.guid then Named else Leaving;
      && Trace(Idle, false, oks, 0) == [Take(Heap)] + ([Take(Guard)] + Trace(pc, false, oks, 3))
      && Arrives(Idle, false, oks, 0) == Arrives(pc, false, oks, 3)
  {
    hide Trace, Arrives;
    var oks := Outcomes(env);
    TraceStep(Idle, false, oks, 0);
    TraceStep(Allocated, false, oks, 1);
    TraceStep(Guarded, false, oks, 2);
  }

  lemma GuardedLedger(calls: seq<S.OsCall>)
    requires |calls| >= 4 && calls[0] == S.Opened(S.HeapBlock) && calls[1] == S.Opened(S.Guard)
    ensures Ledger(calls, 0) == [Take(Heap)] + ([Take(Guard)] + Ledger(calls, 2))
  {
    hide Ledger;
    LedgerStep(calls, 0);
    LedgerStep(calls, 1);
  }

  lemma GuardedTrace(env: S.Publication)
    requires env.blocks != 0 && env.heap && env.mutex == S.NewMutex
    ensures SameProgram(env)
  {
    hide Trace, Arrives, Ledger;
    var oks, calls := Outcomes(env), S.CreateCalls(env);
    GuardedStart(env);
    GuardedLedger(calls);
    if !env.guid {
      LeavingTrace(false, oks, 3);
      LedgerTail(calls, 2);
    } else if env.create != 0 {
      TraceStep(Named, false, oks, 3);
      LeavingTrace(false, oks, 4);
      LedgerTail(calls, 2);
    } else {
      TraceStep(Named, false, oks, 3);
      TraceStep(UnitMade, false, oks, 4);
      StartedTrace(env);
    }
  }

  lemma StartedTrace(env: S.Publication)
    requires env.blocks != 0 && env.heap && env.mutex == S.NewMutex && env.guid && env.create == 0
    ensures var oks := Outcomes(env);
      if env.start != 0 then
        && Trace(Deleting(false), false, oks, 5) == [Drop(Unit), Drop(Guard), Drop(Heap)]
        && Arrives(Deleting(false), false, oks, 5) == Idle
        && Ledger(S.CreateCalls(env), 2) == [Take(Unit), Drop(Unit), Drop(Guard), Drop(Heap)]
      else
        && Trace(Live(false), false, oks, 5) == [] && Arrives(Live(false), false, oks, 5) == Live(false)
        && Ledger(S.CreateCalls(env), 2) == [Take(Unit), Take(Dispatcher)]
  {
    hide Trace, Arrives, Ledger;
    var oks, calls := Outcomes(env), S.CreateCalls(env);
    LedgerStep(calls, 2);
    LedgerStep(calls, 3);
    if env.start != 0 {
      TraceStep(Deleting(false), false, oks, 5);
      TraceStep(Deleted(false), false, oks, 6);
      LeavingTrace(false, oks, 7);
      LedgerTail(calls, 6);
      LedgerStep(calls, 4);
      LedgerStep(calls, 5);
    } else {
      TraceStep(Live(false), false, oks, 0);
    }
  }

  /** A call of `wl_close` drops what one process does on its way out. */
  lemma CloseIsProgram(before: u32, after: u32, locked: Option<nat>, existed: bool)
    ensures var oks := seq(6, _ => false);
      && Trace(Live(locked.Some?), existed, oks, 0) == Ledger(S.CloseCalls(before, after, locked), 0)
      && Arrives(Live(locked.Some?), existed, oks, 0) == Idle
  {
    hide Trace, Arrives, Ledger, S.CloseCalls;
    CloseTrace(locked.Some?, existed);
    CloseLedger(before, after, locked);
  }

  function ClosingOps(locked: bool): seq<Op> {
    [Drop(Dispatcher), Drop(Unit)] + (if locked then [Drop(Volume)] else []) + [Drop(Guard), Drop(Heap)]
  }

  lemma CloseTrace(locked: bool, existed: bool)
    ensures var oks := seq(6, _ => false);
      && Trace(Live(locked), existed, oks, 0) == ClosingOps(locked) && Arrives(Live(locked), existed, oks, 0) == Idle
  {
    hide Trace, Arrives;
    var oks := seq(6, _ => false);
    TraceStep(Live(locked), existed, oks, 0);
    TraceStep(Waiting(locked), existed, oks, 1);
    TraceStep(Deleting(locked), existed, oks, 2);
    TraceStep(Deleted(locked), existed, oks, 3);
    LeavingTrace(existed, oks, 4);
  }

  lemma CloseLedger(before: u32, after: u32, locked: Option<nat>)
    ensures Ledger(S.CloseCalls(before, after, locked), 0) == ClosingOps(locked.Some?)
  {
    hide Ledger;
    var calls := S.CloseCalls(before, after, locked);
    LedgerTail(calls, |calls| - 2);
    LedgerStep(calls, 0);
    LedgerStep(calls, 1);
    LedgerStep(calls, 2);
    LedgerStep(calls, 3);
    LedgerStep(calls, 4);
    LedgerStep(calls, 5);
    LedgerStep(calls, 6);
  }

  /** The resources behind a set of handles. */
  function Resources(held: set<S.Handle>): set<Resource> {
    set h | h in held && !h.Search? :: ResourceOf(h)
  }

  /**
   A close attempt changes what a published session holds by the one step of the process that
   takes the volume, if it went all the way, and by nothing otherwise. What a session holds
   before and after is what a process holds there.
   */
  lemma LockIsProgram(env: S.Attempt, existed: bool)
    ensures var locked := if S.Closing(env).phase == 4 then S.Found(env) else None;
      var before, after := Resources(S.PublishedHandles(None)), Resources(S.PublishedHandles(locked));
      && Holds(Process(Live(false), before)) && Holds(Process(Live(locked.Some?), after))
      && (S.Closing(env).phase == 4 ==>
            && Program(Live(false), existed, true) == (Live(true), Take(Volume))
            && locked.Some? && after == before + {Volume})
      && (S.Closing(env).phase != 4 ==> after == before)
  {
    hide S.Found;
    HeldResources(None);
    HeldResources(if S.Closing(env).phase == 4 then S.Found(env) else None);
  }

  lemma HeldResources(locked: Option<nat>)
    ensures Resources(S.PublishedHandles(locked))
         == {Heap, Guard, Unit, Dispatcher} + if locked.Some? then {Volume} else {}
  {
    var held := S.PublishedHandles(locked);
    assert S.HeapBlock in held && S.Guard in held && S.Unit in held && S.Dispatcher in held;
    assert locked.Some? ==> S.Volume(locked.value) in held;
  }
}
