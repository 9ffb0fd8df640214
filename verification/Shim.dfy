/**
 The native lifecycle of `native/winspd_shim.c`: publication, the orderly close of the
 mounted volume, and the final teardown. The results of the operating-system calls are
 inputs. A ledger holds every handle; opening one twice or closing one not held is not
 callable, so the preconditions of `Acquire` and `Release` state the handle discipline.
 */
module Shim {
  import opened Basics
  import Threads

  /** A Win32 call succeeds, or fails and leaves a code in `GetLastError`. */
  datatype Os = Success | Failure(code: u32)

  const ERROR_ACCESS_DENIED: u32 := 5
  const ERROR_WRITE_PROTECT: u32 := 19
  const ERROR_INVALID_HANDLE: u32 := 6
  const ERROR_NOT_READY: u32 := 21
  const ERROR_SHARING_VIOLATION: u32 := 32
  const ERROR_LOCK_VIOLATION: u32 := 33
  const ERROR_GEN_FAILURE: u32 := 31
  const ERROR_NOT_ENOUGH_MEMORY: u32 := 8
  const ERROR_INVALID_PARAMETER: u32 := 87
  const ERROR_DUP_NAME: u32 := 52
  const ERROR_BUSY: u32 := 170
  const ERROR_ALREADY_EXISTS: u32 := 183
  const ERROR_UNRECOGNIZED_VOLUME: u32 := 1005

  datatype Handle = HeapBlock | Guard | Unit | Dispatcher | Search | Volume(i: nat)

  datatype OsCall =
    | Opened(h: Handle) | Released(h: Handle)
    | ModeSeen(code: u32) | Locked(r: Os) | Flushed(r: Os) | Dismounted(r: Os) | Unlocked
    | ErrorSeen(code: u32) | ShutDown | Waited

  /** What one enumerated volume answers: its name is usable, it opens, its serial is ours. */
  datatype Candidate = Candidate(named: bool, opens: bool, matches: bool)

  predicate Mine(c: Candidate) {
    c.named && c.opens && c.matches
  }

  /** The positions of the volumes that belong to the session. */
  ghost function Matches(cs: seq<Candidate>): set<nat> {
    set i: nat | i < |cs| && Mine(cs[i])
  }

  datatype Query = Query(call: Os, btrfs: bool, readOnly: bool)

  /** `volume_mode(volume, 0)`. */
  function VolumeMode(q: Query): u32 {
    match q.call
    case Failure(code) => code
    case Success =>
      if !q.btrfs then ERROR_UNRECOGNIZED_VOLUME else if q.readOnly then ERROR_WRITE_PROTECT else 0
  }

  /** The answers met by one attempt to close the mounted volume. */
  datatype Attempt = Attempt(search: Os, volumes: seq<Candidate>, before: Query, lock: Os, after: Query, flush: Os,
      dismount: Os)

  /** The answers met by one publication. */
  datatype Mutex = NewMutex | OldMutex | NoMutex(code: u32)
  datatype Publication = Publication(blocks: u64, heap: bool, mutex: Mutex, guid: bool, create: u32, start: u32)

  /** What a refused guard is reported as: a name in use is busy, whether or not a handle came with it. */
  function GuardCode(m: Mutex): u32 {
    match m
    case NewMutex => 0
    case OldMutex => ERROR_BUSY
    case NoMutex(code) => if code == ERROR_ALREADY_EXISTS then ERROR_BUSY else code
  }

  /** Every step of a publication succeeds. */
  predicate Publishes(env: Publication) {
    env.blocks != 0 && env.heap && env.mutex == NewMutex && env.guid && env.create == 0 && env.start == 0
  }

  /** The calls of a publication: what was taken is given back in the opposite order. */
  function CreateCalls(env: Publication): seq<OsCall> {
    if env.blocks == 0 || !env.heap then []
    else match env.mutex
      case OldMutex => [Opened(HeapBlock), Opened(Guard), Released(Guard), Released(HeapBlock)]
      case NoMutex(_) => [Opened(HeapBlock), Released(HeapBlock)]
      case NewMutex =>
        if !env.guid || env.create != 0 then [Opened(HeapBlock), Opened(Guard), Released(Guard), Released(HeapBlock)]
        else if env.start != 0 then
          [Opened(HeapBlock), Opened(Guard), Opened(Unit), ShutDown, Waited, Released(Unit), Released(Guard),
            Released(HeapBlock)]
        else [Opened(HeapBlock), Opened(Guard), Opened(Unit), Opened(Dispatcher)]
  }

  /** The calls of a teardown, the locked volume last but for the guard. */
  function CloseCalls(before: u32, after: u32, locked: Option<nat>): seq<OsCall> {
    [ErrorSeen(before), ShutDown, Waited, Released(Dispatcher), ErrorSeen(after), Released(Unit)]
    + (if locked.Some? then [Released(Volume(locked.value))] else [])
    + [Released(Guard), Released(HeapBlock)]
  }

  function Kept(volume: Option<nat>): set<Handle> {
    if volume.Some? then {Volume(volume.value)} else {}
  }

  /** Nothing but opening and closing handles happened since. */
  ghost predicate HandlesOnly(before: seq<OsCall>, after: seq<OsCall>) {
    && before <= after
    && forall i :: |before| <= i < |after| ==> after[i].Opened? || after[i].Released?
  }

  lemma HandlesTwice(a: seq<OsCall>, b: seq<OsCall>, c: seq<OsCall>)
    requires HandlesOnly(a, b) && HandlesOnly(b, c)
    ensures HandlesOnly(a, c)
  {
    assert forall i :: |a| <= i < |b| ==> c[i] == b[i];
  }

  lemma HandleCall(a: seq<OsCall>, c: OsCall)
    requires c.Opened? || c.Released?
    ensures HandlesOnly(a, a) && HandlesOnly(a, a + [c])
  {
  }

  /** What a published session holds, with the volume it keeps locked. */
  function PublishedHandles(locked: Option<nat>): set<Handle> {
    {HeapBlock, Guard, Unit, Dispatcher} + Kept(locked)
  }

  class Bridge {
    var held: set<Handle>
    var calls: seq<OsCall>
    /** The volume kept locked from a successful close attempt on. */
    var locked: Option<nat>

    /** A session is published: it holds its guard, and its unit and dispatcher with it. */
    ghost predicate Published()
      reads this
    {
      held == PublishedHandles(locked)
    }

    constructor ()
      ensures held == {} && calls == [] && locked == None
    {
      held, calls, locked := {}, [], None;
    }

    method Acquire(h: Handle)
      requires h !in held
      modifies this`held, this`calls
      ensures held == old(held) + {h} && calls == old(calls) + [Opened(h)]
    {
      held, calls := held + {h}, calls + [Opened(h)];
    }

    method Release(h: Handle)
      requires h in held
      modifies this`held, this`calls
      ensures held == old(held) - {h} && calls == old(calls) + [Released(h)]
    {
      held, calls := held - {h}, calls + [Released(h)];
    }

    /**
     `wl_create`. It publishes exactly when every step succeeded, the guard first and the
     unit after it, and on any failure gives back everything it took, the guard last.
     */
    method Create(env: Publication) returns (code: u32, published: bool)
      requires held == {} && locked == None
      modifies this`held, this`calls
      ensures published <==> Publishes(env)
      ensures published ==> code == 0 && Published()
      ensures calls == old(calls) + CreateCalls(env)
      ensures !published ==> held == {} && (code == 0 <==> env.blocks != 0 && env.heap && env.mutex == NoMutex(0))
      ensures published <==>
        && env.blocks != 0 && env.heap && env.mutex.NewMutex? && env.guid && env.create == 0 && env.start == 0
      ensures env.blocks == 0 ==> code == 87
      ensures env.blocks != 0 && !env.heap ==> code == 8
      ensures env.blocks != 0 && env.heap ==>
        match env.mutex
        case OldMutex => code == 170
        case NoMutex(error) => code == if error == 183 then 170 else error
        case NewMutex =>
          code == if !env.guid then 31 else if env.create != 0 then env.create else env.start
    {
      if env.blocks == 0 {
        return ERROR_INVALID_PARAMETER, false;
      }
      if !env.heap {
        return ERROR_NOT_ENOUGH_MEMORY, false;
      }
      Acquire(HeapBlock);
      if env.mutex != NewMutex {
        if env.mutex == OldMutex {
          Acquire(Guard);
          Release(Guard);
        }
        Release(HeapBlock);
        return GuardCode(env.mutex), false;
      }
      Acquire(Guard);
      code, published := CreateGuarded(env);
    }

    /** The part of a publication behind its guard. */
    method CreateGuarded(env: Publication) returns (code: u32, published: bool)
      requires env.blocks != 0 && env.heap && env.mutex == NewMutex
      requires held == {HeapBlock, Guard} && locked == None
      modifies this`held, this`calls
      ensures published <==> Publishes(env)
      ensures published ==> code == 0 && Published()
      ensures !published ==> held == {} && code != 0
      ensures code == if !env.guid then 31 else if env.create != 0 then env.create else env.start
      ensures calls == old(calls) + CreateCalls(env)[2..]
    {
      if !env.guid {
        Release(Guard);
        Release(HeapBlock);
        return ERROR_GEN_FAILURE, false;
      }
      if env.create != 0 {
        Release(Guard);
        Release(HeapBlock);
        return env.create, false;
      }
      Acquire(Unit);
      if env.start != 0 {
        calls := calls + [ShutDown, Waited];
        Release(Unit);
        Release(Guard);
        Release(HeapBlock);
        return env.start, false;
      }
      Acquire(Dispatcher);
      return 0, true;
    }

    /**
     `find_volume`: the one volume that carries the serial of this session. None and more
     than one are errors, and every handle except the answer is closed again.
     */
    method FindVolume(search: Os, volumes: seq<Candidate>) returns (code: u32, found: Option<nat>)
      requires (forall i: nat :: Volume(i) !in held) && Search !in held
      modifies this`held, this`calls
      ensures held == old(held) + Kept(found) && HandlesOnly(old(calls), calls)
      ensures search.Failure? ==> found.None? && code == search.code
      ensures search.Success? ==>
        && SearchIs(volumes, found)
        && code == (if found.Some? then 0 else if Matches(volumes) == {} then ERROR_NOT_READY else ERROR_DUP_NAME)
    {
      hide Matches, Mine, SearchIs, SoFar, HandlesOnly;
      HandleCall(calls, Opened(Search));
      if search.Failure? {
        return search.code, None;
      }
      NoMatches(volumes);
      Acquire(Search);
      found := None;
      var i := 0;
      while i < |volumes|
        invariant 0 <= i <= |volumes|
        invariant SoFar(volumes, i, found) && (found.Some? ==> found.value < i)
        invariant held == old(held) + {Search} + Kept(found) && HandlesOnly(old(calls), calls)
      {
        SoFarStep(volumes, i, found);
        ghost var before := calls;
        var twice := Look(volumes[i], i, found);
        HandlesTwice(old(calls), before, calls);
        if twice {
          return ERROR_DUP_NAME, None;
        }
        if Mine(volumes[i]) {
          found := Some(i);
        }
        i := i + 1;
      }
      SoFarEnd(volumes, found);
      HandleCall(calls, Released(Search));
      HandlesTwice(old(calls), calls, calls + [Released(Search)]);
      Release(Search);
      code := if found.Some? then 0 else ERROR_NOT_READY;
    }

    /**
     Opens an enumerated volume and keeps its handle if its serial is ours. When another one
     is kept already, both are closed and the search ends.
     */
    method Look(c: Candidate, i: nat, found: Option<nat>) returns (twice: bool)
      requires Volume(i) !in held && Search in held
      requires found.Some? ==> found.value != i && Volume(found.value) in held
      modifies this`held, this`calls
      ensures twice == (Mine(c) && found.Some?)
      ensures held ==
        if twice then old(held) - {Search, Volume(found.value)}
        else if Mine(c) then old(held) + {Volume(i)}
        else old(held)
      ensures HandlesOnly(old(calls), calls)
    {
      if c.named && c.opens {
        Acquire(Volume(i));
        if !c.matches {
          Release(Volume(i));
        } else if found.Some? {
          Release(Volume(i));
          Release(Volume(found.value));
          Release(Search);
          return true;
        }
      }
      return false;
    }

    /**
     `wl_lock_and_dismount`: `Closing` says what it reports and which calls it makes. It keeps
     the volume handle exactly when it went all the way; otherwise it gives everything back.
     */
    method LockAndDismount(env: Attempt) returns (code: u32, phase: nat, ghost looked: seq<OsCall>)
      requires Published()
      modifies this
      ensures Published() && (locked.Some? <==> old(locked).Some? || Closing(env).phase == 4)
      ensures old(locked).Some? ==> code == 0 && phase == 0 && locked == old(locked) && calls == old(calls)
      ensures old(locked).None? ==>
        && locked == (if Closing(env).phase == 4 then Found(env) else None)
        && code == Closing(env).code && phase == Closing(env).phase
        && calls == old(calls) + looked + Closing(env).calls
      ensures forall c :: c in looked ==> c.Opened? || c.Released?
    {
      phase, looked := 0, [];
      if locked.Some? {
        return 0, 0, [];
      }
      var error, found := FindVolume(env.search, env.volumes);
      looked := calls[|old(calls)|..];
      FoundIs(env, found);
      if found.None? {
        // A failed enumeration that left no code goes on, to a query of an invalid handle.
        return (if error == 0 then ERROR_INVALID_HANDLE else error), 0, looked;
      }
      code, phase := Work(env, found.value);
    }

    /** The attempt on the found volume, whose handle is held. */
    method Work(env: Attempt, volume: nat) returns (code: u32, phase: nat)
      requires locked.None? && Found(env) == Some(volume)
      requires held == {HeapBlock, Guard, Unit, Dispatcher} + Kept(Some(volume))
      modifies this
      ensures Published() && locked == (if Closing(env).phase == 4 then Some(volume) else None)
      ensures code == Closing(env).code && phase == Closing(env).phase && calls == old(calls) + Closing(env).calls
    {
      hide Found, Matches;
      phase := 0;
      var mode := VolumeMode(env.before);
      calls := calls + [ModeSeen(mode)];
      if mode != 0 {
        Release(Volume(volume));
        return mode, 0;
      }
      phase := 1;
      calls := calls + [Locked(env.lock)];
      if env.lock.Failure? {
        code := env.lock.code;
        mode := VolumeMode(env.after);
        calls := calls + [ModeSeen(mode)];
        if mode != 0 {
          phase, code := 0, ERROR_WRITE_PROTECT;
        }
        Release(Volume(volume));
        return;
      }
      code, phase := Dismount(env, volume);
    }

    /** The attempt from the granted lock on: look again, flush, dismount. */
    method Dismount(env: Attempt, volume: nat) returns (code: u32, phase: nat)
      requires locked.None? && Found(env) == Some(volume)
      requires VolumeMode(env.before) == 0 && env.lock.Success?
      requires held == {HeapBlock, Guard, Unit, Dispatcher} + Kept(Some(volume))
      modifies this
      ensures Published() && locked == (if Closing(env).phase == 4 then Some(volume) else None)
      ensures code == Closing(env).code && phase == Closing(env).phase
      ensures |Closing(env).calls| >= 2 && calls == old(calls) + Closing(env).calls[2..]
    {
      hide Found, Matches;
      phase := 2;
      code := VolumeMode(env.after);
      calls := calls + [ModeSeen(code)];
      if code == 0 {
        calls := calls + [Flushed(env.flush)];
        if env.flush.Failure? {
          code := env.flush.code;
        }
      }
      if code == 0 {
        phase := 3;
        calls := calls + [Dismounted(env.dismount)];
        if env.dismount.Failure? {
          code := env.dismount.code;
        }
      }
      if code != 0 {
        calls := calls + [Unlocked];
        Release(Volume(volume));
        return;
      }
      phase, locked := 4, Some(volume);
    }

    /**
     `wl_close`: stop, drain, look, delete the unit, and only then let go of the locked
     volume and, last of the handles, of the publication guard.
     */
    method Close(before: u32, after: u32) returns (code: u32)
      requires Published()
      modifies this
      ensures held == {} && locked == None && code == Threads.CloseCode(before, after)
      ensures code == if before != 0 then before else if after == 995 then 0 else after
      ensures calls == old(calls) + CloseCalls(before, after, old(locked))
    {
      calls := calls + [ErrorSeen(before), ShutDown, Waited];
      Release(Dispatcher);
      calls := calls + [ErrorSeen(after)];
      Release(Unit);
      LetGo();
      return if before != 0 then before else if after == Threads.OPERATION_ABORTED then 0 else after;
    }

    /** The last of a teardown: the locked volume, then the guard and the session's memory. */
    method LetGo()
      requires held == {HeapBlock, Guard} + Kept(locked)
      modifies this
      ensures held == {} && locked == None
      ensures calls == old(calls)
        + (if old(locked).Some? then [Released(Volume(old(locked).value))] else [])
        + [Released(Guard), Released(HeapBlock)]
    {
      if locked.Some? {
        Release(Volume(locked.value));
      }
      Release(Guard);
      locked := None;
      Release(HeapBlock);
    }
  }

  lemma MatchesSnoc(cs: seq<Candidate>, i: nat)
    requires i < |cs|
    ensures Matches(cs[..i + 1]) == Matches(cs[..i]) + if Mine(cs[i]) then {i} else {}
  {
  }

  lemma NoMatches(cs: seq<Candidate>)
    ensures SoFar(cs, 0, None)
  {
  }

  /** The search comes back with the one volume that matches, if exactly one does. */
  ghost predicate SearchIs(cs: seq<Candidate>, found: Option<nat>) {
    && (found.Some? <==> |Matches(cs)| == 1)
    && (found.Some? ==> Matches(cs) == {found.value})
  }

  /** What a search has found among the first `i` volumes. */
  ghost predicate SoFar(cs: seq<Candidate>, i: nat, found: Option<nat>) {
    i <= |cs| && Matches(cs[..i]) == if found.Some? then {found.value} else {}
  }

  lemma SoFarStep(cs: seq<Candidate>, i: nat, found: Option<nat>)
    requires i < |cs| && SoFar(cs, i, found)
    ensures !Mine(cs[i]) ==> SoFar(cs, i + 1, found)
    ensures Mine(cs[i]) && found.None? ==> SoFar(cs, i + 1, Some(i))
    ensures Mine(cs[i]) && found.Some? ==> SearchIs(cs, None) && Matches(cs) != {}
  {
    MatchesSnoc(cs, i);
    if Mine(cs[i]) && found.Some? {
      TwoMatches(cs, found.value, i);
    }
  }

  lemma SoFarEnd(cs: seq<Candidate>, found: Option<nat>)
    requires SoFar(cs, |cs|, found)
    ensures SearchIs(cs, found) && (found.None? <==> Matches(cs) == {})
  {
    assert cs[..|cs|] == cs;
  }

  lemma TwoMatches(cs: seq<Candidate>, i: nat, j: nat)
    requires j < |cs| && i in Matches(cs[..j]) && Mine(cs[j])
    ensures SearchIs(cs, None) && Matches(cs) != {}
  {
    var rest := Matches(cs) - {i};
    assert j in rest;
    assert |Matches(cs)| == |rest| + 1;
  }

  // ---- what an attempt reports ----

  datatype Report = Report(code: u32, phase: nat, calls: seq<OsCall>)

  /** The volume the search of an attempt comes back with. */
  ghost function Found(env: Attempt): Option<nat> {
    if env.search.Success? && |Matches(env.volumes)| == 1 then Some(Pick(Matches(env.volumes))) else None
  }

  ghost function Pick(s: set<nat>): nat
    requires |s| == 1
  {
    PickUnique(s);
    var k :| k in s;
    k
  }

  lemma PickUnique(s: set<nat>)
    requires |s| == 1
    ensures exists k :: k in s
    ensures forall j, k :: j in s && k in s ==> j == k
  {
    var k :| k in s;
    assert |s - {k}| == 0;
    forall j | j in s ensures j == k {
      assert j == k || j in s - {k};
    }
  }

  lemma FoundIs(env: Attempt, found: Option<nat>)
    requires env.search.Success? ==> SearchIs(env.volumes, found)
    requires env.search.Failure? ==> found.None?
    ensures Found(env) == found
  {
  }

  /** The code, the phase and the calls on the found volume. */
  ghost function Closing(env: Attempt): Report {
    if Found(env).None? then
      Report(if env.search.Failure? then (if env.search.code == 0 then ERROR_INVALID_HANDLE else env.search.code)
             else if Matches(env.volumes) == {} then ERROR_NOT_READY else ERROR_DUP_NAME, 0, [])
    else
      var v, before, after := Volume(Found(env).value), VolumeMode(env.before), VolumeMode(env.after);
      var seen := [ModeSeen(before), Locked(env.lock), ModeSeen(after)];
      if before != 0 then Report(before, 0, [ModeSeen(before), Released(v)])
      else if env.lock.Failure? then
        if after != 0 then Report(ERROR_WRITE_PROTECT, 0, seen + [Released(v)])
        else Report(env.lock.code, 1, seen + [Released(v)])
      else if after != 0 then Report(after, 2, seen + [Unlocked, Released(v)])
      else if CodeOf(env.flush) != 0 then
        Report(CodeOf(env.flush), 2, seen + [Flushed(env.flush), Unlocked, Released(v)])
      else if CodeOf(env.dismount) != 0 then
        Report(CodeOf(env.dismount), 3, seen + [Flushed(env.flush), Dismounted(env.dismount), Unlocked, Released(v)])
      else Report(0, 4, seen + [Flushed(env.flush), Dismounted(env.dismount)])
  }

  function CodeOf(r: Os): u32 {
    if r.Failure? then r.code else 0
  }

  /** The call saw the volume mounted for writing. */
  predicate SawWritable(q: Query) {
    q.call.Success? && q.btrfs && !q.readOnly
  }

  /** The close a session promises: its own volume, writable before and after the lock, flushed, then dismounted. */
  ghost predicate Orderly(env: Attempt) {
    && Found(env).Some?
    && SawWritable(env.before) && env.lock.Success? && SawWritable(env.after)
    && env.flush.Success? && env.dismount.Success?
  }

  /** A call that fails without leaving a code. */
  predicate Mute(r: Os) {
    r == Failure(0)
  }

  /** No failing call of the attempt is mute. */
  predicate Candid(env: Attempt) {
    !Mute(env.before.call) && !Mute(env.lock) && !Mute(env.after.call) && !Mute(env.flush) && !Mute(env.dismount)
  }

  predicate Tolerated(q: Query) {
    SawWritable(q) || Mute(q.call)
  }

  predicate Passes(r: Os) {
    r.Success? || Mute(r)
  }

  /**
   When success is reported. On a system whose failing calls all leave a code, exactly for
   an orderly close, which makes its calls in order and nothing after them. In general the
   report is wrong exactly when every call reached passes or is mute and one is mute.
   */
  lemma SuccessMeansOrderly(env: Attempt)
    ensures Candid(env) ==> (Closing(env).code == 0 <==> Orderly(env))
    ensures Closing(env).code == 0 && !Orderly(env) <==>
      && !Candid(env) && Found(env).Some? && Tolerated(env.before) && Tolerated(env.after)
      && (Mute(env.lock) || (env.lock.Success? && Passes(env.flush) && Passes(env.dismount)
            && (Mute(env.before.call) || Mute(env.after.call) || Mute(env.flush) || Mute(env.dismount))))
    ensures Orderly(env) ==>
      && Closing(env).phase == 4
      && Closing(env).calls == [ModeSeen(0), Locked(Success), ModeSeen(0), Flushed(Success), Dismounted(Success)]
  {
  }

  /**
   The report of an attempt on its volume, case by case: what the two looks at the mode, the
   lock, the flush and the dismount answered decides phase and code, first failure first.
   */
  lemma ReportByCase(env: Attempt)
    requires Found(env).Some?
    ensures var r, before, after := Closing(env), ModeCode(env.before), ModeCode(env.after);
      if before != 0 then r.phase == 0 && r.code == before
      else if env.lock.Failure? && after != 0 then r.phase == 0 && r.code == 19
      else if env.lock.Failure? then r.phase == 1 && r.code == env.lock.code
      else if after != 0 then r.phase == 2 && r.code == after
      else if ErrorOf(env.flush) != 0 then r.phase == 2 && r.code == env.flush.code
      else if ErrorOf(env.dismount) != 0 then r.phase == 3 && r.code == env.dismount.code
      else r.phase == 4 && r.code == 0
  {
  }

  function ErrorOf(r: Os): u32 {
    match r case Success => 0 case Failure(code) => code
  }

  /** What a look at the mode comes to: its own error, another filesystem, a read-only mount, or nothing. */
  function ModeCode(q: Query): u32 {
    if q.call.Failure? then q.call.code else if !q.btrfs then 1005 else if q.readOnly then 19 else 0
  }

  /**
   The calls of an attempt. Nothing is flushed without a granted lock and a second look, nothing
   dismounted without a flush, an attempt that got the lock and failed gives the lock back, and
   every attempt that does not go all the way ends by closing the volume it found.
   */
  lemma AttemptDiscipline(env: Attempt)
    ensures var r := Closing(env);
      && (forall c ::
        c in r.calls && c.Flushed? ==> env.lock.Success? && r.calls[..3] == [ModeSeen(0), Locked(Success), ModeSeen(0)])
      && (forall c :: c in r.calls && c.Dismounted? ==> Flushed(env.flush) in r.calls && ErrorOf(env.flush) == 0)
      && (Unlocked in r.calls <==> Found(env).Some? && ModeCode(env.before) == 0 && env.lock.Success? && r.phase < 4)
      && (Found(env).None? ==> r.phase == 0 && r.calls == [])
      && (Found(env).Some? && r.phase < 4 ==>
        r.calls != [] && r.calls[|r.calls| - 1] == Released(Volume(Found(env).value)))
      && (r.phase == 4 ==> forall c :: c in r.calls ==> !c.Released? && !c.Unlocked?)
  {
    hide Found;
  }

  /** The refusal a lock can meet and be retried after. */
  predicate Busy(code: u32) {
    code in {ERROR_ACCESS_DENIED, ERROR_SHARING_VIOLATION, ERROR_LOCK_VIOLATION, ERROR_BUSY}
  }

  ghost predicate Retryable(env: Attempt) {
    Closing(env).phase == 1 && Busy(Closing(env).code)
  }

  /** Retried is exactly a lock refused as busy on a volume that stayed writable: nothing was flushed. */
  lemma RetryableMeansBusy(env: Attempt)
    ensures Retryable(env) <==>
      && Found(env).Some? && Tolerated(env.before) && Tolerated(env.after)
      && env.lock.Failure? && (env.lock.code == 5 || env.lock.code == 32 || env.lock.code == 33 || env.lock.code == 170)
    ensures Retryable(env) ==>
      Closing(env).calls == [ModeSeen(0), Locked(env.lock), ModeSeen(0), Released(Volume(Found(env).value))]
  {
  }

  /** A lock refused without a code is reported as a clean close of a volume nobody locked. */
  lemma MuteLockLooksClean()
    ensures var writable := Query(Success, true, false);
      var env := Attempt(Success, [Candidate(true, true, true)], writable, Failure(0), writable, Success, Success);
      Closing(env).code == 0 && Closing(env).phase == 1 && !Orderly(env)
  {
    var own := [Candidate(true, true, true)];
    assert Matches(own) == {0};
  }
}
