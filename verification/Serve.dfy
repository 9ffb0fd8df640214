/**
 The publishing loop of `src/adapter/windows.rs`. Everything it observes, polls, Ctrl+C,
 dispatcher errors and the answers of the close attempts, is an input; a script that runs
 out leaves the session running.
 */
module Serve {
  import opened Basics
  import opened Images
  import opened Shim
  import Device
  import Durability
  import Threads
  import Runs

  /** One look at the session while its volume is being discovered, and the answer of the next probe. */
  datatype Poll = Poll(late: bool, error: u32, faulted: bool, quit: bool, ready: u32)

  /** One look at the published session, and the close attempt it leads to if Ctrl+C was pressed. */
  datatype Round = Round(error: u32, faulted: bool, quit: bool, attempt: Attempt)

  datatype World = World(
    consumer: Result<()>,
    handler: bool,
    publication: Publication,
    ready: u32,
    polls: seq<Poll>,
    rounds: seq<Round>,
    parting: Attempt,
    before: u32,
    after: u32,
    syncFailed: bool,
    faultedAfterDrain: bool)

  /** `Crashed` is the use of a session that was never handed out. */
  datatype Exit = Running | Crashed | Exited(result: Result<()>)

  /** The final answer of `serve`. */
  function Verdict(readOnly: bool, clean: bool, ready: u32, failed: bool): Result<()> {
    if !readOnly && (!clean || failed) then Err(UncleanClose)
    else if ready != 0 then Err(VolumeDiscoveryFailed)
    else if failed then Err(DevicePublishFailed)
    else Ok(())
  }

  /** The attempts of a session that may end well: all but the last were retryable. */
  ghost predicate RetriedUntil(tries: seq<Attempt>) {
    tries != [] && forall i :: 0 <= i < |tries| - 1 ==> Retryable(tries[i])
  }

  predicate ShutdownFailed(w: World) {
    w.syncFailed || Threads.CloseCode(w.before, w.after) != 0 || w.faultedAfterDrain
  }

  /** The session gets published. */
  predicate Reaches(w: World) {
    w.consumer.Ok? && w.handler && Publishes(w.publication)
  }

  function Last(tries: seq<Attempt>): Attempt
    requires tries != []
  {
    tries[|tries| - 1]
  }

  ghost predicate LastSucceeded(tries: seq<Attempt>) {
    tries != [] && Closing(tries[|tries| - 1]).code == 0
  }

  /** Something ends the wait for the volume. */
  predicate Ends(p: Poll) {
    p.late || p.error != 0 || p.faulted || p.quit
  }

  /** The wait for the volume: its last answer, and whether it is over. */
  function Discovered(ready: u32, polls: seq<Poll>): (u32, bool)
    decreases |polls|
  {
    if ready == 0 then (0, true)
    else if polls == [] then (ready, false)
    else if Ends(polls[0]) then (ready, true)
    else Discovered(polls[0].ready, polls[1..])
  }

  datatype Publishing = Publishing(clean: bool, marked: bool, ended: bool, tries: seq<Attempt>)

  /** The rounds of a published session that has made the attempts `tries`. */
  ghost function Published(readOnly: bool, rounds: seq<Round>, tries: seq<Attempt>): Publishing
    decreases |rounds|
  {
    if rounds == [] then Publishing(readOnly, false, false, tries)
    else
      var r := rounds[0];
      if r.error != 0 || r.faulted then Publishing(readOnly, false, true, tries)
      else if !r.quit then Published(readOnly, rounds[1..], tries)
      else if readOnly then Publishing(true, false, true, tries)
      else if Closing(r.attempt).code == 0 then Publishing(true, false, true, tries + [r.attempt])
      else if Retryable(r.attempt) then Published(readOnly, rounds[1..], tries + [r.attempt])
      else Publishing(false, true, true, tries + [r.attempt])
  }

  /** How `serve` ends, the close attempts it made, and what the wait for the volume came to. */
  datatype Ending = Ending(exit: Exit, tries: seq<Attempt>, ready: u32)

  ghost function Served(readOnly: bool, w: World): Ending {
    var (ready, found) := Discovered(w.ready, w.polls);
    if w.consumer.Err? then Ending(Exited(Err(w.consumer.error)), [], 0)
    else if w.handler && w.publication.blocks != 0 && w.publication.heap && w.publication.mutex == NoMutex(0)
    then Ending(Crashed, [], 0)
    else if !Reaches(w) then Ending(Exited(Err(DevicePublishFailed)), [], 0)
    else if !found then Ending(Running, [], ready)
    else if ready == 0 then
      var p := Published(readOnly, w.rounds, []);
      if !p.ended then Ending(Running, p.tries, 0)
      else Ending(Exited(Verdict(readOnly, p.clean, 0, ShutdownFailed(w) || p.marked)), p.tries, 0)
    else
      var tries := if readOnly then [] else [w.parting];
      var clean := readOnly || Closing(w.parting).code == 0;
      Ending(Exited(Verdict(readOnly, clean, ready, ShutdownFailed(w))), tries, ready)
  }

  /**
   `serve`: it ends as `Served` says, and every path that ends has given back every handle.
   What the ending means is stated below.
   */
  method Run(b: Bridge, readOnly: bool, w: World) returns (exit: Exit, tries: seq<Attempt>, ready: u32)
    requires b.held == {} && b.locked == None
    modifies b
    ensures Ending(exit, tries, ready) == Served(readOnly, w)
    ensures exit.Exited? ==> b.held == {}
  {
    hide Closing;
    tries, ready := [], 0;
    if w.consumer.Err? {
      return Exited(Err(w.consumer.error)), [], 0;
    }
    if !w.handler {
      return Exited(Err(DevicePublishFailed)), [], 0;
    }
    var rc, published := b.Create(w.publication);
    if rc != 0 {
      return Exited(Err(DevicePublishFailed)), [], 0;
    }
    if !published {
      return Crashed, [], 0;
    }
    var found;
    ready, found := Discover(w.ready, w.polls);
    if !found {
      return Running, [], ready;
    }
    var clean, marked, ended := readOnly, false, true;
    if ready == 0 {
      clean, marked, ended, tries := Publish(b, readOnly, w.rounds);
    } else if !readOnly {
      var rc, _, _ := b.LockAndDismount(w.parting);
      clean, tries := rc == 0, [w.parting];
    }
    if !ended {
      return Running, tries, ready;
    }
    var transport := b.Close(w.before, w.after);
    var failed := w.syncFailed || transport != 0 || w.faultedAfterDrain || marked;
    return Exited(Verdict(readOnly, clean, ready, failed)), tries, ready;
  }

  /** The answer about the volume that is at hand at the `i`-th look. */
  function AnswerAt(first: u32, polls: seq<Poll>, i: nat): u32
    requires i <= |polls|
  {
    if i == 0 then first else polls[i - 1].ready
  }

  /** The wait lasted `n` looks: up to there the volume was not ready and nothing ended the wait. */
  ghost predicate Waited(first: u32, polls: seq<Poll>, n: nat, ready: u32, ended: bool) {
    && n <= |polls| && ready == AnswerAt(first, polls, n)
    && (forall i :: 0 <= i < n ==>
          AnswerAt(first, polls, i) != 0 && !polls[i].late && polls[i].error == 0 && !polls[i].faulted
            && !polls[i].quit)
    && (n < |polls| ==>
          (ended <==> ready == 0 || polls[n].late || polls[n].error != 0 || polls[n].faulted || polls[n].quit))
    && (n == |polls| ==> (ended <==> ready == 0))
    && (!ended ==> n == |polls|)
  }

  /** Polls until the volume is ready or something stops the wait. */
  method Discover(first: u32, polls: seq<Poll>) returns (ready: u32, ended: bool)
    ensures (ready, ended) == Discovered(first, polls)
    ensures exists n :: Waited(first, polls, n, ready, ended)
  {
    ready := first;
    var i := 0;
    while ready != 0 && i < |polls| && !Ends(polls[i])
      invariant 0 <= i <= |polls| && ready == AnswerAt(first, polls, i)
      invariant Discovered(first, polls) == Discovered(ready, polls[i..])
      invariant forall k :: 0 <= k < i ==> AnswerAt(first, polls, k) != 0 && !Ends(polls[k])
      decreases |polls| - i
    {
      ready := polls[i].ready;
      i := i + 1;
    }
    ended := ready == 0 || i < |polls|;
    assert Waited(first, polls, i, ready, ended);
  }

  /** The close attempts asked for in these rounds. */
  function Asked(rounds: seq<Round>): seq<Attempt> {
    if rounds == [] then []
    else
      var r := rounds[|rounds| - 1];
      Asked(rounds[..|rounds| - 1]) + if r.quit then [r.attempt] else []
  }

  lemma AskedMore(rounds: seq<Round>, i: nat)
    requires i < |rounds|
    ensures Asked(rounds[..i + 1]) == Asked(rounds[..i]) + if rounds[i].quit then [rounds[i].attempt] else []
  {
    assert rounds[..i + 1][..i] == rounds[..i];
  }

  /** A round that leaves the session published: all is well, and Ctrl+C met a busy lock if it came. */
  ghost predicate Stays(readOnly: bool, r: Round) {
    && r.error == 0 && !r.faulted
    && (r.quit ==> !readOnly && Closing(r.attempt).phase == 1 && Closing(r.attempt).code in {5, 32, 33, 170})
  }

  /** The session stayed published for `n` rounds, and then ended as the next round says. */
  ghost predicate Stayed(readOnly: bool, rounds: seq<Round>, n: nat, p: Publishing) {
    && n <= |rounds| && (forall i :: 0 <= i < n ==> Stays(readOnly, rounds[i]))
    && if n == |rounds| then p == Publishing(readOnly, false, false, Asked(rounds))
       else
         var r := rounds[n];
         && !Stays(readOnly, r) && p.ended
         && if r.error != 0 || r.faulted then p == Publishing(readOnly, false, true, Asked(rounds[..n]))
            else if readOnly then p == Publishing(true, false, true, [])
            else
              var clean := Closing(r.attempt).code == 0;
              p == Publishing(clean, !clean, true, Asked(rounds[..n]) + [r.attempt])
  }

  /** The loop of a published session, up to the point where it shuts down. */
  method Publish(b: Bridge, readOnly: bool, rounds: seq<Round>) returns (clean: bool, marked: bool, ended: bool,
      tries: seq<Attempt>)
    requires b.Published() && b.locked == None
    modifies b
    ensures b.Published()
    ensures Publishing(clean, marked, ended, tries) == Published(readOnly, rounds, [])
    ensures exists n :: Stayed(readOnly, rounds, n, Publishing(clean, marked, ended, tries))
  {
    hide Closing;
    clean, marked, ended, tries := readOnly, false, false, [];
    var i := 0;
    while i < |rounds|
      invariant 0 <= i <= |rounds| && b.Published()
      invariant clean == readOnly && !marked && !ended
      invariant b.locked == None
      invariant Published(readOnly, rounds, []) == Published(readOnly, rounds[i..], tries)
      invariant tries == Asked(rounds[..i]) && (readOnly ==> tries == [])
      invariant forall k :: 0 <= k < i ==> Stays(readOnly, rounds[k])
    {
      var r := rounds[i];
      AskedMore(rounds, i);
      assert rounds[i..][0] == r && rounds[i..][1..] == rounds[i + 1..];
      if r.error != 0 || r.faulted {
        assert Stayed(readOnly, rounds, i, Publishing(clean, false, true, tries));
        return clean, false, true, tries;
      }
      if r.quit {
        if readOnly {
          assert Stayed(readOnly, rounds, i, Publishing(true, false, true, tries));
          return clean, false, true, tries;
        }
        var rc, phase, _ := b.LockAndDismount(r.attempt);
        tries := tries + [r.attempt];
        assert !Stays(readOnly, r) ==> Stayed(readOnly, rounds, i, Publishing(rc == 0, rc != 0, true, tries));
        if rc == 0 {
          return true, false, true, tries;
        }
        if !(phase == 1 && Busy(rc)) {
          return false, true, true, tries;
        }
      }
      i := i + 1;
    }
    assert rounds[..i] == rounds;
    assert Stayed(readOnly, rounds, i, Publishing(clean, marked, ended, tries));
  }

  // ---- what an ending means ----

  lemma {:induction false} PublishedTries(readOnly: bool, rounds: seq<Round>, tries: seq<Attempt>)
    requires forall a :: a in tries ==> Retryable(a)
    requires readOnly ==> tries == []
    ensures var p := Published(readOnly, rounds, tries);
      && (p.marked ==> !p.clean && p.ended)
      && (readOnly ==> p.clean && !p.marked && p.tries == [])
      && (!readOnly ==> (p.clean <==> LastSucceeded(p.tries)))
      && (!readOnly && p.clean ==> RetriedUntil(p.tries) && p.ended)
      && (!readOnly && p.ended && !p.clean && !p.marked ==> forall a :: a in p.tries ==> Retryable(a))
      && (p.marked ==> p.tries != [] && !Retryable(p.tries[|p.tries| - 1]))
    decreases |rounds|
  {
    hide Closing;
    assert tries != [] ==> tries[|tries| - 1] in tries;
    if rounds != [] && !(rounds[0].error != 0 || rounds[0].faulted) {
      var r := rounds[0];
      if !r.quit {
        PublishedTries(readOnly, rounds[1..], tries);
      } else if !readOnly && Closing(r.attempt).code != 0 && Retryable(r.attempt) {
        PublishedTries(readOnly, rounds[1..], tries + [r.attempt]);
      }
    }
  }

  /**
   The answers of a published writable session, each exactly: UncleanClose if the last close
   attempt did not succeed or anything went wrong while shutting down; otherwise
   VolumeDiscoveryFailed if the volume never came up; otherwise Ok, and then there were
   attempts refused as busy and after them one that reported success, which was orderly if
   and only if none of its calls failed without leaving a code.
   */
  lemma WritableAnswers(w: World)
    requires Reaches(w) && Served(false, w).exit.Exited?
    ensures var s := Served(false, w);
      && (s.exit == Exited(Err(UncleanClose)) <==> !LastSucceeded(s.tries) || ShutdownFailed(w))
      && (s.exit == Exited(Err(VolumeDiscoveryFailed)) <==>
        LastSucceeded(s.tries) && !ShutdownFailed(w) && s.ready != 0)
      && (s.exit == Exited(Ok(())) <==> LastSucceeded(s.tries) && !ShutdownFailed(w) && s.ready == 0)
      && (s.ready != 0 ==> s.tries == [w.parting])
      && (s.exit == Exited(Ok(())) ==> RetriedUntil(s.tries))
      && (s.exit == Exited(Ok(())) ==> (Orderly(Last(s.tries)) <==> Candid(Last(s.tries))))
  {
    hide Closing, Retryable;
    if LastSucceeded(Served(false, w).tries) {
      SuccessMeansOrderly(Last(Served(false, w).tries));
    }
    PublishedTries(false, w.rounds, []);
  }

  /** The answers of a published read-only session, which never tries to lock the volume. */
  lemma ReadOnlyAnswers(w: World)
    requires Reaches(w) && Served(true, w).exit.Exited?
    ensures var s := Served(true, w);
      && s.tries == []
      && s.exit == Exited(
           if s.ready != 0 then Err(VolumeDiscoveryFailed)
           else if ShutdownFailed(w) then Err(DevicePublishFailed)
           else Ok(()))
  {
    hide Closing, Retryable;
    PublishedTries(true, w.rounds, []);
  }

  /** The busy refusals of a session that ended Ok, and any attempt that ended it otherwise. */
  lemma OnlyBusyIsRetried(w: World, i: nat)
    requires Reaches(w) && i < |Served(false, w).tries|
    requires !Retryable(Served(false, w).tries[i]) && Closing(Served(false, w).tries[i]).code != 0
    requires Served(false, w).exit.Exited?
    ensures Served(false, w).exit == Exited(Err(UncleanClose))
  {
    hide Closing, Retryable;
    WritableAnswers(w);
    PublishedTries(false, w.rounds, []);
    var s := Served(false, w);
    assert s.tries[i] in s.tries;
  }

  /** On a system whose failing calls leave a code, the last attempt of a successful session was orderly. */
  lemma SuccessClosedOrderly(tries: seq<Attempt>)
    requires RetriedUntil(tries) && Closing(tries[|tries| - 1]).code == 0
    requires forall a :: a in tries ==> Candid(a)
    ensures Orderly(tries[|tries| - 1])
    ensures forall i :: 0 <= i < |tries| - 1 ==>
      && tries[i].lock.Failure? && Busy(tries[i].lock.code)
      && SawWritable(tries[i].before) && SawWritable(tries[i].after)
  {
    hide Closing;
    SuccessMeansOrderly(tries[|tries| - 1]);
    forall i | 0 <= i < |tries| - 1
      ensures tries[i].lock.Failure? && Busy(tries[i].lock.code) && SawWritable(tries[i].before)
        && SawWritable(tries[i].after)
    {
      RetryableMeansBusy(tries[i]);
      assert tries[i] in tries;
    }
  }

  /** The observations of `serve` are those of a run of its callbacks that has shut down. */
  ghost predicate Observes(w: World, s: Threads.State) {
    && s.main.Closed?
    && w.syncFailed == s.main.failed
    && Threads.CloseCode(w.before, w.after) == s.main.transport
    && w.faultedAfterDrain == s.core.faulted
  }

  /**
   What `Ok` from a writable session promises, over every run of its callbacks. Its close
   attempts were refused as busy and then one reported success; that one locked the session's
   own volume, saw it writable, flushed and dismounted it in this order, if and only if none of
   its calls failed without leaving a code. Every write that ever began is acknowledged and survives any later crash.
   */
  lemma SuccessIsDurable(g: Device.Setup, file: seq<Byte>, steps: seq<Threads.Step>, survivor: seq<Byte>, w: World)
    requires Runs.Session(g, file, steps) && Observes(w, Runs.After(g, file, steps))
    requires Survives(Runs.After(g, file, steps).core.disk, survivor)
    requires Served(false, w).exit == Exited(Ok(()))
    ensures var tries := Served(false, w).tries;
      && RetriedUntil(tries) && LastSucceeded(tries)
      && (Orderly(Last(tries)) <==> Candid(Last(tries)))
    ensures var log := Runs.After(g, file, steps).core.log;
      && Durability.Unacknowledged(log) == 0 && Durability.AcksFit(g.length, log)
      && Durability.SameFrame(g, file, survivor)
      && Durability.Plain(g, survivor) == Durability.Overlay(Durability.Plain(g, file), log)
  {
    hide Closing, Retryable, Orderly, Runs.Session, Runs.After, Durability.Plain, Durability.Overlay;
    WritableAnswers(w);
    SettledVerdict(g, file, steps);
    Runs.CleanShutdown(g, file, steps, survivor);
  }

  lemma SettledVerdict(g: Device.Setup, file: seq<Byte>, steps: seq<Threads.Step>)
    requires Runs.Session(g, file, steps) && Runs.After(g, file, steps).main.Closed?
    ensures var s := Runs.After(g, file, steps);
      s.main.verdict <==> s.core.faulted || s.main.failed || s.main.transport != 0
  {
    hide Runs.Session, Runs.After, Durability.Inv;
    Runs.AfterSane(g, file, steps);
  }

  /** The only attempt met a refused lock, and neither flushed nor dismounted anything. */
  ghost predicate LockedNothing(tries: seq<Attempt>) {
    && |tries| == 1 && tries[0].lock.Failure?
    && forall c :: c in Closing(tries[0]).calls ==> !c.Flushed? && !c.Dismounted?
  }

  /**
   A whole session that answers Ok after one Ctrl+C, although the lock was refused: the
   refusal left no code. Nothing was flushed and nothing dismounted.
   */
  lemma MuteLockEndsOk()
    ensures exists w :: Served(false, w).exit == Exited(Ok(())) && LockedNothing(Served(false, w).tries)
  {
    MuteLockLooksClean();
    var writable := Query(Success, true, false);
    var a := Attempt(Success, [Candidate(true, true, true)], writable, Failure(0), writable, Success, Success);
    var w := World(Ok(()), true, Publication(1, true, NewMutex, true, 0, 0), 0, [], [Round(0, false, true, a)], a, 0,
      0, false, false);
    assert Served(false, w) == Ending(Exited(Ok(())), [a], 0);
  }
}
