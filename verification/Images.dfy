/**
 The backing file of `src/image.rs`: one fixed-size file reached through an operating
 system that may move any prefix of a transfer, interrupt it, fail it, or panic.
 What survives a crash is what the last honoured sync covered.
 */
module Images {
  import opened Basics

  /** The answer of the operating system to one call. `Whole` moves everything asked for. */
  datatype Action = Whole | Move(n: nat) | Interrupted | Fail | Panic

  /**
   `visible` is what reads return and `durable` what the last sync put on the medium.
   Positions marked `dirty` were written since, so the medium may hold anything there.
   Positions marked `lost` were dirty when a sync failed: no later sync vouches for them.
   */
  datatype Disk = Disk(visible: seq<Byte>, durable: seq<Byte>, dirty: seq<bool>, lost: seq<bool>)

  predicate Shaped(d: Disk) {
    |d.visible| == |d.durable| == |d.dirty| == |d.lost|
  }

  ghost predicate Sound(d: Disk) {
    && Shaped(d)
    && (forall i :: 0 <= i < |d.lost| && d.lost[i] ==> d.dirty[i])
    && (forall i :: 0 <= i < |d.dirty| && !d.dirty[i] ==> d.visible[i] == d.durable[i])
  }

  /** Every byte string a crash can leave behind. */
  ghost predicate Survives(d: Disk, c: seq<Byte>) {
    && |c| == |d.dirty| == |d.durable|
    && (forall i :: 0 <= i < |c| && !d.dirty[i] ==> c[i] == d.durable[i])
  }

  function Clean(n: nat): (r: seq<bool>)
    ensures |r| == n && forall i :: 0 <= i < n ==> !r[i]
  {
    seq(n, _ => false)
  }

  function Put(d: Disk, at: nat, b: seq<Byte>): (r: Disk)
    requires Shaped(d) && at + |b| <= |d.visible|
    ensures Shaped(r) && |r.visible| == |d.visible|
  {
    d.(visible := Splice(d.visible, at, b), dirty := Splice(d.dirty, at, seq(|b|, _ => true)))
  }

  function Synced(d: Disk): (r: Disk)
    requires Shaped(d)
    ensures Shaped(r) && r.visible == d.visible
  {
    Disk(d.visible,
         seq(|d.visible|, i requires 0 <= i < |d.visible| => if d.lost[i] then d.durable[i] else d.visible[i]),
         d.lost, d.lost)
  }

  function SyncLost(d: Disk): Disk {
    d.(lost := d.dirty)
  }

  lemma PutSound(d: Disk, at: nat, b: seq<Byte>)
    requires Sound(d) && at + |b| <= |d.visible|
    ensures Sound(Put(d, at, b))
  {
  }

  lemma SyncSound(d: Disk)
    requires Sound(d)
    ensures Sound(Synced(d)) && Sound(SyncLost(d))
  {
  }

  lemma PutTwice(d: Disk, at: nat, a: seq<Byte>, b: seq<Byte>)
    requires Shaped(d) && at + |a| + |b| <= |d.visible|
    ensures Put(Put(d, at, a), at + |a|, b) == Put(d, at, a + b)
  {
    SpliceTwice(d.visible, at, a, b);
    SpliceTwice(d.dirty, at, seq(|a|, _ => true), seq(|b|, _ => true));
    assert seq(|a|, _ => true) + seq(|b|, _ => true) == seq(|a + b|, _ => true);
  }

  // ---- the answers of the operating system ----

  /** The answers to all calls to come, of which the next is number `at`. */
  datatype Script = Script(answers: nat -> Action, at: nat, last: nat)

  /** Interrupts end: none comes at `last` or later. */
  ghost predicate Calms(s: Script) {
    forall i: nat :: s.last <= i ==> !s.answers(i).Interrupted?
  }

  /** Any infinite sequence of answers with finitely many interrupts. */
  type Plan = s: Script | Calms(s) witness Script(_ => Whole, 0, 0)

  function Take(plan: Plan): Action {
    plan.answers(plan.at)
  }

  function Rest(plan: Plan): Plan {
    plan.(at := plan.at + 1)
  }

  /** Bounds the interrupts that may still come. */
  function Left(plan: Plan): nat {
    if plan.at < plan.last then plan.last - plan.at else 0
  }

  lemma LeftRest(plan: Plan)
    ensures Left(Rest(plan)) <= Left(plan)
    ensures Take(plan).Interrupted? ==> Left(Rest(plan)) < Left(plan)
  {
  }

  /** How many of `want` bytes the call moves. */
  function Amount(a: Action, want: nat): (m: nat)
    ensures m <= want
  {
    match a
    case Whole => want
    case Move(n) => if n < want then n else want
    case _ => 0
  }

  predicate Completes(a: Action) {
    a.Whole? || a.Move?
  }

  datatype Io<+T> = Io(disk: Disk, plan: Plan, end: Ended<T>)

  function Forget<T>(e: Ended<T>): Ended<()> {
    match e
    case Panicked => Panicked
    case Done(Ok(_)) => Done(Ok(()))
    case Done(Err(x)) => Done(Err(x))
  }

  /** The write loop once the first `done` bytes of `buf` are in place. */
  function WriteRun(d: Disk, at: nat, buf: seq<Byte>, done: nat, plan: Plan): (r: Io<()>)
    requires Shaped(d) && done <= |buf| && at + |buf| <= |d.visible|
    ensures Shaped(r.disk) && |r.disk.visible| == |d.visible|
    decreases Left(plan), |buf| - done
  {
    hide Calms, Take, Rest, Left;
    LeftRest(plan);
    var a, m := Take(plan), Amount(Take(plan), |buf| - done);
    if done == |buf| then Io(d, plan, Done(Ok(())))
    else if a.Interrupted? then WriteRun(d, at, buf, done, Rest(plan))
    else if a.Panic? then Io(d, Rest(plan), Panicked)
    else if m == 0 then Io(d, Rest(plan), Done(Err(BackendIo)))
    else WriteRun(Put(d, at + done, buf[done..done + m]), at, buf, done + m, Rest(plan))
  }

  /** The bytes a transfer of `want` bytes moves before it ends, whatever they are. */
  function Moved(want: nat, plan: Plan): (k: nat)
    ensures k <= want
    decreases Left(plan), want
  {
    hide Calms, Take, Rest, Left;
    LeftRest(plan);
    var a, m := Take(plan), Amount(Take(plan), want);
    if want == 0 then 0
    else if a.Interrupted? then Moved(want, Rest(plan))
    else if a.Panic? || m == 0 then 0
    else m + Moved(want - m, Rest(plan))
  }

  lemma PutMore(d: Disk, at: nat, buf: seq<Byte>, done: nat, m: nat)
    requires Shaped(d) && at + |buf| <= |d.visible| && done + m <= |buf|
    ensures Put(Put(d, at, buf[..done]), at + done, buf[done..done + m]) == Put(d, at, buf[..done + m])
  {
    PutTwice(d, at, buf[..done], buf[done..done + m]);
    assert buf[..done] + buf[done..done + m] == buf[..done + m];
  }

  /** A write leaves exactly a prefix of its buffer in place; it succeeds iff the prefix is everything. */
  lemma {:induction false} WriteIsPrefix(d: Disk, at: nat, buf: seq<Byte>, done: nat, plan: Plan)
    requires Shaped(d) && done <= |buf| && at + |buf| <= |d.visible|
    ensures var r, k := WriteRun(Put(d, at, buf[..done]), at, buf, done, plan), Moved(|buf| - done, plan);
      && r.disk == Put(d, at, buf[..done + k])
      && (r.end == Done(Ok(())) <==> done + k == |buf|)
      && (r.end.Done? && r.end.result.Err? ==> r.end.result.error == BackendIo)
    decreases Left(plan), |buf| - done
  {
    hide Put, Calms, Take, Rest, Left;
    LeftRest(plan);
    var a, m := Take(plan), Amount(Take(plan), |buf| - done);
    if done == |buf| || a.Panic? {
    } else if a.Interrupted? {
      WriteIsPrefix(d, at, buf, done, Rest(plan));
    } else if m > 0 {
      PutMore(d, at, buf, done, m);
      WriteIsPrefix(d, at, buf, done + m, Rest(plan));
    }
  }

  /** The read loop with `got` already in the buffer. */
  function ReadRun(d: Disk, at: nat, got: seq<Byte>, want: nat, plan: Plan): (r: Io<seq<Byte>>)
    requires |got| <= want && at + want <= |d.visible|
    ensures r.disk == d
    decreases Left(plan), want - |got|
  {
    hide Calms, Take, Rest, Left;
    LeftRest(plan);
    var left := want - |got|;
    var a, m := Take(plan), Amount(Take(plan), left);
    if left == 0 then Io(d, plan, Done(Ok(got)))
    else if a.Interrupted? then ReadRun(d, at, got, want, Rest(plan))
    else if a.Panic? then Io(d, Rest(plan), Panicked)
    else if m == 0 then Io(d, Rest(plan), Done(Err(BackendIo)))
    else ReadRun(d, at, got + d.visible[at + |got|..at + |got| + m], want, Rest(plan))
  }

  /** A read that succeeds returns the visible bytes, and it succeeds iff every byte was moved. */
  lemma {:induction false} ReadIsExact(d: Disk, at: nat, got: seq<Byte>, want: nat, plan: Plan)
    requires |got| <= want && at + want <= |d.visible| && got == d.visible[at..at + |got|]
    ensures ReadRun(d, at, got, want, plan).end
         == if Moved(want - |got|, plan) == want - |got| then Done(Ok(d.visible[at..at + want]))
            else if ReadRun(d, at, got, want, plan).end.Panicked? then Panicked else Done(Err(BackendIo))
    decreases Left(plan), want - |got|
  {
    hide Calms, Take, Rest, Left;
    LeftRest(plan);
    var left := want - |got|;
    var a, m := Take(plan), Amount(Take(plan), left);
    if left == 0 || a.Panic? {
    } else if a.Interrupted? {
      ReadIsExact(d, at, got, want, Rest(plan));
    } else if m > 0 {
      ReadIsExact(d, at, got + d.visible[at + |got|..at + |got| + m], want, Rest(plan));
    }
  }

  /**
   Transfers end. However the answers come, a write makes at most one call for every interrupt
   still to come and one for every byte, and uses its answers in order.
   */
  lemma {:induction false} WriteEnds(d: Disk, at: nat, buf: seq<Byte>, done: nat, plan: Plan)
    requires Shaped(d) && done <= |buf| && at + |buf| <= |d.visible|
    ensures var r := WriteRun(d, at, buf, done, plan);
      && r.plan == plan.(at := r.plan.at)
      && plan.at <= r.plan.at <= plan.at + Left(plan) + |buf| - done
    decreases Left(plan), |buf| - done
  {
    hide Calms, Left, Put;
    LeftRest(plan);
    var a, m := Take(plan), Amount(Take(plan), |buf| - done);
    if done < |buf| && a.Interrupted? {
      WriteEnds(d, at, buf, done, Rest(plan));
    } else if done < |buf| && m > 0 {
      WriteEnds(Put(d, at + done, buf[done..done + m]), at, buf, done + m, Rest(plan));
    }
  }

  lemma {:induction false} ReadEnds(d: Disk, at: nat, got: seq<Byte>, want: nat, plan: Plan)
    requires |got| <= want && at + want <= |d.visible|
    ensures var r := ReadRun(d, at, got, want, plan);
      && r.plan == plan.(at := r.plan.at)
      && plan.at <= r.plan.at <= plan.at + Left(plan) + want - |got|
    decreases Left(plan), want - |got|
  {
    hide Calms, Left;
    LeftRest(plan);
    var a, m := Take(plan), Amount(Take(plan), want - |got|);
    if |got| < want && a.Interrupted? {
      ReadEnds(d, at, got, want, Rest(plan));
    } else if |got| < want && m > 0 {
      ReadEnds(d, at, got + d.visible[at + |got|..at + |got| + m], want, Rest(plan));
    }
  }

  /** One turn of the read loop, in terms of how much has been read. */
  lemma ReadTurn(d: Disk, at: nat, done: nat, want: nat, plan: Plan)
    requires done < want && at + want <= |d.visible|
    ensures var a, m, r := Take(plan), Amount(Take(plan), want - done),
      ReadRun(d, at, d.visible[at..at + done], want, plan);
      if a.Interrupted? then r == ReadRun(d, at, d.visible[at..at + done], want, Rest(plan))
      else if a.Panic? then r == Io(d, Rest(plan), Panicked)
      else if m == 0 then r == Io(d, Rest(plan), Done(Err(BackendIo)))
      else r == ReadRun(d, at, d.visible[at..at + done + m], want, Rest(plan))
  {
    hide Calms, Take, Rest;
    var m := Amount(Take(plan), want - done);
    assert d.visible[at..at + done] + d.visible[at + done..at + done + m] == d.visible[at..at + done + m];
  }

  lemma ReadDone(d: Disk, at: nat, want: nat, plan: Plan)
    requires at + want <= |d.visible|
    ensures ReadRun(d, at, d.visible[at..at + want], want, plan) == Io(d, plan, Done(Ok(d.visible[at..at + want])))
  {
  }

  predicate InFile(len: nat, offset: nat, n: nat) {
    offset <= len && n <= len - offset
  }

  /** `write_all_at`: mode, range and length checks, then the loop. */
  function WriteAll(len: nat, mode: AccessMode, d: Disk, offset: nat, buf: seq<Byte>, plan: Plan): (r: Io<()>)
    requires Shaped(d) && |d.visible| == len
  {
    if mode.ReadOnlyMode? then Io(d, plan, Done(Err(ReadOnly)))
    else if !InFile(len, offset, |buf|) then Io(d, plan, Done(Err(InvalidRange)))
    else if Take(plan).Panic? then Io(d, Rest(plan), Panicked)
    else if !Completes(Take(plan)) then Io(d, Rest(plan), Done(Err(BackendIo)))
    else WriteRun(d, offset, buf, 0, Rest(plan))
  }

  /** `read_exact_at`: range and length checks, then the loop. */
  function ReadExact(len: nat, d: Disk, offset: nat, n: nat, plan: Plan): (r: Io<seq<Byte>>)
    requires Shaped(d) && |d.visible| == len
  {
    if !InFile(len, offset, n) then Io(d, plan, Done(Err(InvalidRange)))
    else if Take(plan).Panic? then Io(d, Rest(plan), Panicked)
    else if !Completes(Take(plan)) then Io(d, Rest(plan), Done(Err(BackendIo)))
    else ReadRun(d, offset, [], n, Rest(plan))
  }

  /** `sync`: a length check, then in a writable session the flush, which is never retried. */
  function SyncRun(mode: AccessMode, d: Disk, plan: Plan): (r: Io<()>)
    requires Shaped(d)
    ensures r.disk.visible == d.visible
  {
    var a := Take(Rest(plan));
    if Take(plan).Panic? then Io(d, Rest(plan), Panicked)
    else if !Completes(Take(plan)) then Io(d, Rest(plan), Done(Err(BackendIo)))
    else if mode.ReadOnlyMode? then Io(d, Rest(plan), Done(Ok(())))
    else if a.Panic? then Io(d, Rest(Rest(plan)), Panicked)
    else if !Completes(a) then Io(SyncLost(d), Rest(Rest(plan)), Done(Err(BackendIo)))
    else Io(Synced(d), Rest(Rest(plan)), Done(Ok(())))
  }

  /** Answers were used in order from `a` to `b`. */
  ghost predicate Advanced(a: Plan, b: Plan) {
    a.at <= b.at && b == a.(at := b.at)
  }

  /** A call that ends what it belongs to: it failed, panicked or moved nothing, or it was interrupted. */
  predicate Failing(a: Action) {
    a.Fail? || a.Panic? || a == Move(0) || a.Interrupted?
  }

  /**
   The last call between `a` and `b` went wrong. A transfer never ends on an interrupt, so the
   one interrupt that counts here is that of a length check.
   */
  ghost predicate Broke(a: Plan, b: Plan) {
    Advanced(a, b) && a.at < b.at && Failing(b.answers(b.at - 1))
  }

  /** No call to come goes wrong. */
  ghost predicate GoesWell(plan: Plan) {
    forall i: nat :: plan.at <= i ==> !Failing(plan.answers(i))
  }

  /** Nothing breaks where no call to come goes wrong. */
  lemma GoodCallsNeverBreak(a: Plan, b: Plan)
    requires GoesWell(a)
    ensures !Broke(a, b)
  {
  }

  /** A transfer that does not succeed ends on a call that went wrong, and not on an interrupt. */
  lemma {:induction false} TransferBreaks(d: Disk, at: nat, got: seq<Byte>, want: nat, plan: Plan)
    requires |got| <= want && at + want <= |d.visible|
    ensures var r := ReadRun(d, at, got, want, plan);
      && Advanced(plan, r.plan)
      && (r.end.Panicked? || r.end.result.Err? ==> Broke(plan, r.plan) && !r.plan.answers(r.plan.at - 1).Interrupted?)
    decreases Left(plan), want - |got|
  {
    hide Calms, Left;
    LeftRest(plan);
    if |got| < want {
      var a, m := Take(plan), Amount(Take(plan), want - |got|);
      if a.Interrupted? {
        TransferBreaks(d, at, got, want, Rest(plan));
      } else if m > 0 {
        TransferBreaks(d, at, got + d.visible[at + |got|..at + |got| + m], want, Rest(plan));
      }
    }
  }

  /** A read gives the visible bytes, unless it lies outside the file or its last call went wrong. */
  lemma ReadOutcome(len: nat, d: Disk, offset: nat, n: nat, plan: Plan)
    requires Shaped(d) && |d.visible| == len
    ensures var r := ReadExact(len, d, offset, n, plan);
      && Advanced(plan, r.plan)
      && (!InFile(len, offset, n) ==> r.end == Done(Err(InvalidRange)))
      && (InFile(len, offset, n) ==>
            || r.end == Done(Ok(d.visible[offset..offset + n]))
            || (Broke(plan, r.plan) && (r.end.Panicked? || r.end == Done(Err(BackendIo)))))
      && (Broke(plan, r.plan) && r.plan.answers(r.plan.at - 1).Interrupted? && !(r.end.Done? && r.end.result.Ok?) ==>
            r.plan.at == plan.at + 1)
  {
    hide ReadRun, Calms;
    if InFile(len, offset, n) && Completes(Take(plan)) {
      ReadIsExact(d, offset, [], n, Rest(plan));
      TransferBreaks(d, offset, [], n, Rest(plan));
    }
  }

  /** A write that does not succeed ends on a call that went wrong, and not on an interrupt of the transfer. */
  lemma {:induction false} WriteBreaks(d: Disk, at: nat, buf: seq<Byte>, done: nat, plan: Plan)
    requires Shaped(d) && done <= |buf| && at + |buf| <= |d.visible|
    ensures var r := WriteRun(d, at, buf, done, plan);
      && Advanced(plan, r.plan)
      && (r.end.Panicked? || r.end.result.Err? ==> Broke(plan, r.plan) && !r.plan.answers(r.plan.at - 1).Interrupted?)
    decreases Left(plan), |buf| - done
  {
    hide Calms, Left, Put;
    LeftRest(plan);
    if done < |buf| {
      var a, m := Take(plan), Amount(Take(plan), |buf| - done);
      if a.Interrupted? {
        WriteBreaks(d, at, buf, done, Rest(plan));
      } else if m > 0 {
        WriteBreaks(Put(d, at + done, buf[done..done + m]), at, buf, done + m, Rest(plan));
      }
    }
  }

  /** A write inside the file puts all of its buffer in place, unless its last call went wrong. */
  lemma WriteOutcome(len: nat, d: Disk, offset: nat, buf: seq<Byte>, plan: Plan)
    requires Shaped(d) && |d.visible| == len && offset + |buf| <= len
    ensures var r := WriteAll(len, ReadWriteMode, d, offset, buf, plan);
      && Advanced(plan, r.plan)
      && (|| (r.end == Done(Ok(())) && r.disk == Put(d, offset, buf))
          || (Broke(plan, r.plan) && (r.end.Panicked? || r.end == Done(Err(BackendIo)))))
  {
    hide WriteRun, Calms, Put;
    if Completes(Take(plan)) {
      PutNothing(d, offset);
      assert buf[..0] == [] && buf[..|buf|] == buf;
      WriteIsPrefix(d, offset, buf, 0, Rest(plan));
      WriteBreaks(d, offset, buf, 0, Rest(plan));
      var end := WriteRun(d, offset, buf, 0, Rest(plan)).end;
      assert end.Done? && end.result.Ok? ==> end.result.value == ();
    }
  }

  /** A sync is honoured, in a read-only session without a flush, unless its last call went wrong. */
  lemma SyncOutcome(mode: AccessMode, d: Disk, plan: Plan)
    requires Shaped(d)
    ensures var r := SyncRun(mode, d, plan);
      && Advanced(plan, r.plan) && r.disk.visible == d.visible
      && (|| (r.end == Done(Ok(())) && r.disk == if mode.ReadOnlyMode? then d else Synced(d))
          || (Broke(plan, r.plan) && (r.end.Panicked? || r.end == Done(Err(BackendIo)))))
  {
    hide Calms, Synced;
  }

  lemma PutNothing(d: Disk, at: nat)
    requires Shaped(d) && at <= |d.visible|
    ensures Put(d, at, []) == d
  {
    assert Splice(d.visible, at, []) == d.visible;
    assert Splice(d.dirty, at, seq(0, _ => true)) == d.dirty;
  }

  /** Nothing is unsynced and nothing was lost to a failed sync. */
  predicate Rested(d: Disk) {
    && (forall i :: 0 <= i < |d.dirty| ==> !d.dirty[i])
    && (forall i :: 0 <= i < |d.lost| ==> !d.lost[i])
  }

  /** Every file a crash can leave is `file`. */
  ghost predicate Durable(d: Disk, file: seq<Byte>) {
    forall c :: Survives(d, c) ==> c == file
  }

  /** What reads show is on the medium, but for what an earlier sync lost. */
  ghost predicate SyncHonoured(was: Disk, now: Disk)
    requires Shaped(was) && Shaped(now) && |was.visible| == |now.visible|
  {
    && now.visible == was.visible
    && (forall i :: 0 <= i < |was.visible| && !was.lost[i] ==> !now.dirty[i] && now.durable[i] == was.visible[i])
    && ((forall i :: 0 <= i < |was.lost| ==> !was.lost[i]) ==> Durable(now, was.visible))
  }

  lemma SyncedIsHonoured(d: Disk)
    requires Sound(d)
    ensures SyncHonoured(d, Synced(d))
    ensures (forall i :: 0 <= i < |d.lost| ==> !d.lost[i]) ==> Rested(Synced(d))
  {
  }

  /** The file with the first `k` bytes of `buf` at `offset`, and nothing else changed. */
  predicate Written(was: seq<Byte>, now: seq<Byte>, offset: nat, buf: seq<Byte>, k: nat) {
    && k <= |buf| && offset + k <= |was| && |now| == |was|
    && now == was[..offset] + buf[..k] + was[offset + k..]
  }

  /** A write in range: all of it is in place, or its last call went wrong and a prefix is. */
  ghost predicate Transferred(was: seq<Byte>, now: seq<Byte>, before: Plan, after: Plan, offset: nat, buf: seq<Byte>,
      e: Ended<()>)
  {
    || (e == Done(Ok(())) && Written(was, now, offset, buf, |buf|))
    || (Broke(before, after) && (e == Panicked || e == Done(Err(BackendIo))) && exists k ::
      Written(was, now, offset, buf, k))
  }

  lemma WriteTransfers(len: nat, d: Disk, offset: nat, buf: seq<Byte>, plan: Plan)
    requires Shaped(d) && |d.visible| == len && offset + |buf| <= len
    ensures var r := WriteAll(len, ReadWriteMode, d, offset, buf, plan);
      Transferred(d.visible, r.disk.visible, plan, r.plan, offset, buf, r.end)
  {
    hide WriteAll, Written, Put;
    WriteOutcome(len, d, offset, buf, plan);
    var k := WriteLeavesPrefix(len, d, offset, buf, plan);
  }

  /** Under any answers a write in range leaves a prefix in place, all of it when it succeeds. */
  lemma WriteLeavesPrefix(len: nat, d: Disk, offset: nat, buf: seq<Byte>, plan: Plan) returns (k: nat)
    requires Shaped(d) && |d.visible| == len && offset + |buf| <= len
    ensures var r := WriteAll(len, ReadWriteMode, d, offset, buf, plan);
      && Written(d.visible, r.disk.visible, offset, buf, k)
      && (r.end == Done(Ok(())) ==> k == |buf|)
  {
    hide WriteRun, Calms, Put, Splice;
    if Completes(Take(plan)) {
      PutNothing(d, offset);
      assert buf[..0] == [];
      WriteIsPrefix(d, offset, buf, 0, Rest(plan));
      k := Moved(|buf|, Rest(plan));
      PutIsWritten(d, offset, buf, k);
    } else {
      k := 0;
      PutIsWritten(d, offset, buf, 0);
      assert buf[..0] == [];
      PutNothing(d, offset);
    }
  }

  lemma PutIsWritten(d: Disk, offset: nat, buf: seq<Byte>, k: nat)
    requires Shaped(d) && k <= |buf| && offset + k <= |d.visible|
    ensures Written(d.visible, Put(d, offset, buf[..k]).visible, offset, buf, k)
  {
    SpliceIsCut(d.visible, offset, buf[..k]);
  }

  /** Copies `moved` into the buffer from position `done` on. */
  method CopyInto(buf: array<Byte>, done: nat, moved: seq<Byte>)
    requires done + |moved| <= buf.Length
    modifies buf
    ensures buf[..done + |moved|] == old(buf[..done]) + moved
    ensures buf[done + |moved|..] == old(buf[done + |moved|..])
  {
    forall i | 0 <= i < |moved| {
      buf[done + i] := moved[i];
    }
  }

  /** The open handle. `plan` holds the answers the operating system is going to give. */
  class Image {
    const len: nat
    const mode: AccessMode
    var disk: Disk
    var plan: Plan

    ghost predicate Valid()
      reads this
    {
      len < U64_LIMIT && |disk.visible| == len && Shaped(disk) && Sound(disk)
    }

    constructor (bytes: seq<Byte>, mode: AccessMode, plan: Plan)
      requires |bytes| < U64_LIMIT
      ensures Valid() && len == |bytes| && this.mode == mode && this.plan == plan
      ensures disk == Disk(bytes, bytes, Clean(len), Clean(len))
    {
      len, this.mode, this.plan := |bytes|, mode, plan;
      disk := Disk(bytes, bytes, Clean(|bytes|), Clean(|bytes|));
    }

    method Next() returns (a: Action)
      modifies this`plan
      ensures a == Take(old(plan)) && plan == Rest(old(plan))
    {
      a := Take(plan);
      plan := Rest(plan);
    }

    method WriteAllAt(offset: u64, buf: seq<Byte>) returns (e: Ended<()>)
      requires Valid()
      modifies this
      ensures Valid()
      ensures Io(disk, plan, e) == WriteAll(len, mode, old(disk), offset, buf, old(plan))
      ensures mode == ReadOnlyMode ==> e == Done(Err(ReadOnly)) && disk == old(disk)
      ensures mode == ReadWriteMode && offset + |buf| > len ==> e == Done(Err(InvalidRange)) && disk == old(disk)
      ensures mode == ReadWriteMode && offset + |buf| <= len ==>
        Transferred(old(disk.visible), disk.visible, old(plan), plan, offset, buf, e)
    {
      hide Transferred, Broke, WriteRun, Sound;
      if mode == ReadWriteMode && offset + |buf| <= len {
        WriteTransfers(len, disk, offset, buf, plan);
      }
      if mode != ReadWriteMode {
        return Done(Err(ReadOnly));
      }
      if offset > len || |buf| > len - offset {
        return Done(Err(InvalidRange));
      }
      var stat := Next();
      if stat.Panic? {
        return Panicked;
      }
      if !Completes(stat) {
        return Done(Err(BackendIo));
      }
      e := WriteLoop(offset, buf);
    }

    method WriteLoop(offset: nat, buf: seq<Byte>) returns (e: Ended<()>)
      requires Valid() && offset + |buf| <= len
      modifies this
      ensures Valid()
      ensures Io(disk, plan, e) == WriteRun(old(disk), offset, buf, 0, old(plan))
    {
      hide Put, Sound, Calms, Take, Rest, Left;
      var done := 0;
      while done < |buf|
        invariant 0 <= done <= |buf| && Valid()
        invariant WriteRun(disk, offset, buf, done, plan)
               == WriteRun(old(disk), offset, buf, 0, old(plan))
        decreases Left(plan), |buf| - done
      {
        LeftRest(plan);
        var a := Next();
        if a.Interrupted? {
          continue;
        }
        if a.Panic? {
          return Panicked;
        }
        var n := Amount(a, |buf| - done);
        if n == 0 {
          return Done(Err(BackendIo));
        }
        PutSound(disk, offset + done, buf[done..done + n]);
        disk := Put(disk, offset + done, buf[done..done + n]);
        done := done + n;
      }
      return Done(Ok(()));
    }

    method Sync() returns (e: Ended<()>)
      requires Valid()
      modifies this
      ensures Valid()
      ensures Io(disk, plan, e) == SyncRun(mode, old(disk), old(plan))
      ensures disk.visible == old(disk.visible)
      ensures e == Done(Ok(())) ==> if mode == ReadOnlyMode then disk == old(disk) else SyncHonoured(old(disk), disk)
      ensures e == Done(Ok(())) || (Broke(old(plan), plan) && (e == Panicked || e == Done(Err(BackendIo))))
    {
      SyncOutcome(mode, disk, plan);
      SyncedIsHonoured(disk);
      SyncSound(disk);
      var stat := Next();
      if stat.Panic? {
        return Panicked;
      }
      if !Completes(stat) {
        return Done(Err(BackendIo));
      }
      if mode == ReadWriteMode {
        var a := Next();
        if a.Panic? {
          return Panicked;
        }
        if !Completes(a) {
          disk := SyncLost(disk);
          return Done(Err(BackendIo));
        }
        disk := Synced(disk);
      }
      return Done(Ok(()));
    }

    /** Fills `buf`; on failure `filled` bytes of it have been overwritten and the rest is untouched. */
    method ReadExactAt(offset: u64, buf: array<Byte>) returns (e: Ended<()>, ghost filled: nat)
      requires Valid()
      modifies this`plan, buf
      ensures var r := ReadExact(len, disk, offset, buf.Length, old(plan));
        && plan == r.plan
        && e == Forget(r.end)
        && (r.end.Done? && r.end.result.Ok? ==> buf[..] == r.end.result.value)
      ensures filled <= buf.Length && buf[filled..] == old(buf[filled..])
      ensures filled > 0 ==> offset + filled <= len && buf[..filled] == disk.visible[offset..offset + filled]
      ensures e == Done(Ok(())) ==> filled == buf.Length
      ensures offset + buf.Length > len ==> e == Done(Err(InvalidRange))
      ensures offset + buf.Length <= len ==>
        e == Done(Ok(())) || (Broke(old(plan), plan) && (e == Panicked || e == Done(Err(BackendIo))))
    {
      ReadOutcome(len, disk, offset, buf.Length, plan);
      filled := 0;
      if offset > len || buf.Length > len - offset {
        return Done(Err(InvalidRange)), 0;
      }
      var stat := Next();
      if stat.Panic? {
        return Panicked, 0;
      }
      if !Completes(stat) {
        return Done(Err(BackendIo)), 0;
      }
      e, filled := ReadLoop(offset, buf);
      assert disk.visible[offset..offset] == [];
    }

    method ReadLoop(offset: nat, buf: array<Byte>) returns (e: Ended<()>, ghost filled: nat)
      requires Valid() && offset + buf.Length <= len
      modifies this`plan, buf
      ensures var r := ReadRun(disk, offset, disk.visible[offset..offset], buf.Length, old(plan));
        && plan == r.plan
        && e == Forget(r.end)
        && (r.end.Done? && r.end.result.Ok? ==> buf[..] == r.end.result.value)
      ensures filled <= buf.Length && buf[filled..] == old(buf[filled..])
      ensures buf[..filled] == disk.visible[offset..offset + filled]
      ensures e == Done(Ok(())) ==> filled == buf.Length
    {
      hide Sound, ReadRun, Calms, Take, Rest, Left;
      var done := 0;
      while done < buf.Length
        invariant 0 <= done <= buf.Length
        invariant buf[..done] == disk.visible[offset..offset + done]
        invariant buf[done..] == old(buf[done..])
        invariant ReadRun(disk, offset, disk.visible[offset..offset + done], buf.Length, plan)
               == ReadRun(disk, offset, disk.visible[offset..offset], buf.Length, old(plan))
        decreases Left(plan), buf.Length - done
      {
        ReadTurn(disk, offset, done, buf.Length, plan);
        LeftRest(plan);
        var a := Next();
        if a.Interrupted? {
          continue;
        }
        if a.Panic? {
          return Panicked, done;
        }
        var n := Amount(a, buf.Length - done);
        if n == 0 {
          return Done(Err(BackendIo)), done;
        }
        var moved := disk.visible[offset + done..offset + done + n];
        CopyInto(buf, done, moved);
        assert disk.visible[offset..offset + done] + moved == disk.visible[offset..offset + done + n];
        done := done + n;
      }
      assert buf[..done] == buf[..];
      ReadDone(disk, offset, done, plan);
      return Done(Ok(())), done;
    }
  }
}
