/**
 What the history of a session says about its image: the specification is a plain
 byte array with the acknowledged writes laid over it in order. The invariant below
 ties the encrypted, partly synced file to that array after every single call.
 */
module Durability {
  import opened Basics
  import opened Sectors
  import opened Images
  import opened Device

  /** A stretch of the volume. */
  datatype Extent = Extent(at: nat, n: nat)

  /** The decrypted payload of a file. */
  ghost function Plain(g: Setup, file: seq<Byte>): (p: seq<Byte>)
    requires Fits(g) && |file| == g.fileLen
    ensures |p| == g.length
  {
    Crypt(g.cipher, Decrypt, g.key, 0, file[g.offset..g.offset + g.length])
  }

  /** Sector `k` of the payload is sector `k` of the file behind the offset, decrypted under its own number. */
  lemma PlainBySector(g: Setup, file: seq<Byte>)
    requires Fits(g) && |file| == g.fileLen
    ensures |file[g.offset..g.offset + g.length]| == |Plain(g, file)|
    ensures SectorBySector(g.cipher, Decrypt, g.key, 0, file[g.offset..g.offset + g.length], Plain(g, file))
  {
    hide SectorBySector, Crypt, Lawful;
    CryptIsSectorBySector(g.cipher, Decrypt, g.key, 0, file[g.offset..g.offset + g.length]);
  }

  // ---- reading the history ----

  /** The plain array after every acknowledged write of the history, in order. */
  function Overlay(p: seq<Byte>, log: seq<Event>): (q: seq<Byte>)
    ensures |q| == |p|
  {
    if log == [] then p
    else
      var q, e := Overlay(p, log[..|log| - 1]), log[|log| - 1];
      if IsAck(e) && e.req.offset + |e.req.data| <= |q| then Splice(q, e.req.offset, e.req.data) else q
  }

  predicate IsAck(e: Event) {
    e.Returned? && e.req.Write? && e.result.Ok?
  }

  /** The write that began and is not acknowledged yet, if there is one. */
  function Suspect(log: seq<Event>): Option<Extent> {
    if log == [] then None
    else
      var e := log[|log| - 1];
      if e.Began? then Some(Extent(e.at, |e.data|))
      else if IsAck(e) && e.req.data != [] then None
      else Suspect(log[..|log| - 1])
  }

  /** How many writes began without being acknowledged. */
  function Unacknowledged(log: seq<Event>): int {
    if log == [] then 0
    else
      var e, k := log[|log| - 1], Unacknowledged(log[..|log| - 1]);
      if e.Began? then k + 1 else if IsAck(e) && e.req.data != [] then k - 1 else k
  }

  /**
   The read logged at `k`, if it succeeded, returned the array of its moment; an acknowledged
   write fits the array.
   */
  predicate AnswerAgrees(p: seq<Byte>, log: seq<Event>, k: nat)
    requires k < |log|
  {
    var e := log[k];
    && (e.Returned? && e.req.Read? && e.result.Ok? ==>
          && e.req.offset + e.req.len <= |p|
          && e.result.value == Overlay(p, log[..k])[e.req.offset..e.req.offset + e.req.len])
    && (IsAck(e) ==> RangeOk(|p|, e.req.offset, |e.req.data|))
  }

  /** Every acknowledged write lies in an array of `n` bytes, so that the overlay leaves none out. */
  ghost predicate AcksFit(n: nat, log: seq<Event>) {
    forall k :: 0 <= k < |log| && IsAck(log[k]) ==> RangeOk(n, log[k].req.offset, |log[k].req.data|)
  }

  lemma AgreeingAcksFit(p: seq<Byte>, log: seq<Event>)
    requires AnswersAgree(p, log)
    ensures AcksFit(|p|, log)
  {
    forall k | 0 <= k < |log| && IsAck(log[k]) ensures RangeOk(|p|, log[k].req.offset, |log[k].req.data|) {
      assert AnswerAgrees(p, log, k);
    }
  }

  ghost predicate AnswersAgree(p: seq<Byte>, log: seq<Event>) {
    forall k: nat :: k < |log| ==> AnswerAgrees(p, log, k)
  }

  lemma Append(p: seq<Byte>, log: seq<Event>, e: Event)
    ensures (log + [e])[..|log|] == log
    ensures Overlay(p, log + [e])
         == if IsAck(e) && e.req.offset + |e.req.data| <= |p|
            then Splice(Overlay(p, log), e.req.offset, e.req.data) else Overlay(p, log)
    ensures Suspect(log + [e])
         == if e.Began? then Some(Extent(e.at, |e.data|))
            else if IsAck(e) && e.req.data != [] then None else Suspect(log)
    ensures Unacknowledged(log + [e])
         == if e.Began? then Unacknowledged(log) + 1
            else if IsAck(e) && e.req.data != [] then Unacknowledged(log) - 1 else Unacknowledged(log)
  {
  }

  lemma AppendReads(p: seq<Byte>, log: seq<Event>, e: Event)
    requires AnswersAgree(p, log) && AnswerAgrees(p, log + [e], |log|)
    ensures AnswersAgree(p, log + [e])
  {
    hide Overlay;
    forall k: nat | k < |log + [e]| ensures AnswerAgrees(p, log + [e], k) {
      if k < |log| {
        assert AnswerAgrees(p, log, k);
        assert (log + [e])[..k] == log[..k];
      }
    }
  }

  // ---- the invariant ----

  /** Two files that differ inside the payload at most. */
  ghost predicate SameFrame(g: Setup, a: seq<Byte>, b: seq<Byte>) {
    && |a| == |b| == g.fileLen
    && g.offset + g.length <= g.fileLen
    && a[..g.offset] == b[..g.offset]
    && a[g.offset + g.length..] == b[g.offset + g.length..]
  }

  /** Two arrays that differ inside `x` at most. */
  ghost predicate Outside(p: seq<Byte>, q: seq<Byte>, x: Extent) {
    && |p| == |q| && x.at + x.n <= |p|
    && p[..x.at] == q[..x.at] && p[x.at + x.n..] == q[x.at + x.n..]
  }

  ghost predicate DirtyWithin(d: Disk, lo: nat, hi: nat) {
    forall i :: 0 <= i < |d.dirty| && d.dirty[i] ==> lo <= i < hi
  }

  ghost predicate NothingLost(d: Disk) {
    forall i :: 0 <= i < |d.lost| ==> !d.lost[i]
  }

  predicate ExtentOk(g: Setup, x: Extent) {
    RangeOk(g.length, x.at, x.n) && Aligned(x.at, x.n)
  }

  /** The file holds the array everywhere but on the suspect write, and only that is unsynced. */
  ghost predicate Settled(g: Setup, p: seq<Byte>, d: Disk, suspect: Option<Extent>)
    requires Fits(g) && |d.visible| == g.fileLen
  {
    match suspect
    case None => DirtyWithin(d, 0, 0) && Plain(g, d.visible) == p
    case Some(x) =>
      && ExtentOk(g, x)
      && DirtyWithin(d, g.offset + x.at, g.offset + x.at + x.n)
      && Outside(Plain(g, d.visible), p, x)
  }

  /** The first `n` bytes of the ciphertext of `req` are in place. */
  ghost predicate InPlace(g: Setup, d: Disk, req: Request, n: nat)
    requires Fits(g) && |d.visible| == g.fileLen && WriteOk(g, req) && n <= |req.data|
  {
    var at := g.offset + req.offset;
    d.visible[at..at + n] == Buffer(g, req)[..n]
  }

  ghost predicate PhaseOk(g: Setup, c: Core)
    requires Ready(g, c)
  {
    if c.lock.Free? then
      !c.faulted && !c.poisoned ==> Suspect(c.log).None? && NothingLost(c.disk)
    else
      && !c.poisoned && NothingLost(c.disk)
      && (if c.lock.req.Write? && !c.lock.phase.StatWrite? then
            && Suspect(c.log) == Some(Extent(c.lock.req.offset, |c.lock.req.data|))
            && InPlace(g, c.disk, c.lock.req, if c.lock.phase.Writing? then c.lock.phase.done else |c.lock.req.data|)
          else Suspect(c.log).None?)
      && (c.lock.phase.Reading? ==> GotOk(g, c.disk, c.lock.req, c.lock.phase.got))
  }

  /** What a read has so far is what the file shows. */
  ghost predicate GotOk(g: Setup, d: Disk, req: Request, got: seq<Byte>)
    requires req.Read?
  {
    var at := ReadStart(g, req);
    at + |got| <= |d.visible| && got == d.visible[at..at + |got|]
  }

  ghost predicate HistoryOk(p: seq<Byte>, log: seq<Event>) {
    AnswersAgree(p, log) && Unacknowledged(log) == if Suspect(log).Some? then 1 else 0
  }

  ghost predicate Inv(g: Setup, init: seq<Byte>, c: Core) {
    && Ready(g, c) && Sound(c.disk) && |init| == g.fileLen
    && SameFrame(g, init, c.disk.visible)
    && Settled(g, Overlay(Plain(g, init), c.log), c.disk, Suspect(c.log))
    && PhaseOk(g, c)
    && HistoryOk(Plain(g, init), c.log)
  }

  /** A healthy session at rest has nothing unsynced and nothing lost. */
  lemma HealthyIsRested(g: Setup, init: seq<Byte>, c: Core)
    requires Inv(g, init, c) && c.lock.Free? && !c.faulted && !c.poisoned
    ensures Rested(c.disk)
  {
    hide Plain, Overlay, HistoryOk, SameFrame, Ready;
    assert Ready(g, c) && Fits(g) && Shaped(c.disk) by { ReadyFits(g, c); }
  }

  /** A session starts on a synced file with an empty history. */
  function Start(file: seq<Byte>): Core {
    Core(Disk(file, file, Clean(|file|), Clean(|file|)), false, false, Free, [])
  }

  lemma StartInv(g: Setup, file: seq<Byte>)
    requires Fits(g) && |file| == g.fileLen
    ensures Inv(g, file, Start(file))
  {
  }

  // ---- what a crash leaves ----

  /** A change of the file inside whole payload sectors changes the array inside them only. */
  lemma PlainLocal(g: Setup, a: seq<Byte>, b: seq<Byte>, x: Extent)
    requires Fits(g) && |a| == |b| == g.fileLen && ExtentOk(g, x)
    requires Outside(a, b, Extent(g.offset + x.at, x.n))
    ensures Outside(Plain(g, a), Plain(g, b), x)
    ensures SameFrame(g, a, b)
  {
    hide Crypt, Lawful;
    var lo, hi := g.offset, g.offset + g.length;
    var p, q := a[lo..hi], b[lo..hi];
    var w := q[x.at..x.at + x.n];
    OutsideWindow(a, b, lo, hi, x);
    OutsideIsSplice(p, q, x);
    CryptSplice(g.cipher, Decrypt, g.key, p, x.at / 512, w, x.n / 512);
    SpliceOutside(Plain(g, a), x, Crypt(g.cipher, Decrypt, g.key, x.at / 512, w));
  }

  lemma OutsideWindow(a: seq<Byte>, b: seq<Byte>, lo: nat, hi: nat, x: Extent)
    requires lo <= hi <= |a| == |b| && x.at + x.n <= hi - lo && Outside(a, b, Extent(lo + x.at, x.n))
    ensures Outside(a[lo..hi], b[lo..hi], x)
    ensures a[..lo] == b[..lo] && a[hi..] == b[hi..]
  {
    var s, e := lo + x.at, lo + x.at + x.n;
    assert a[..lo] == a[..s][..lo] && b[..lo] == b[..s][..lo];
    assert a[hi..] == a[e..][hi - e..] && b[hi..] == b[e..][hi - e..];
    assert a[lo..hi][..x.at] == a[..s][lo..] && b[lo..hi][..x.at] == b[..s][lo..];
    assert a[lo..hi][x.at + x.n..] == a[e..][..hi - e] && b[lo..hi][x.at + x.n..] == b[e..][..hi - e];
  }

  lemma OutsideIsSplice(p: seq<Byte>, q: seq<Byte>, x: Extent)
    requires Outside(p, q, x)
    ensures Splice(p, x.at, q[x.at..x.at + x.n]) == q
  {
    SpliceIsCut(p, x.at, q[x.at..x.at + x.n]);
    Cut(q, x.at, x.at + x.n);
  }

  lemma SpliceOutside(p: seq<Byte>, x: Extent, w: seq<Byte>)
    requires |w| == x.n && x.at + x.n <= |p|
    ensures Outside(p, Splice(p, x.at, w), x)
  {
    SpliceIsCut(p, x.at, w);
    Pieces(p[..x.at], w, p[x.at + x.n..]);
  }

  lemma SurvivesOutside(d: Disk, c: seq<Byte>, x: Extent)
    requires Sound(d) && DirtyWithin(d, x.at, x.at + x.n) && Survives(d, c) && x.at + x.n <= |c|
    ensures Outside(d.visible, c, x)
  {
  }

  /**
   Whatever a crash leaves, the payload holds every acknowledged write outside the one
   write that began and was not acknowledged, and nothing outside the payload moved.
   */
  lemma CrashKeepsAcknowledged(g: Setup, init: seq<Byte>, c: Core, survivor: seq<Byte>)
    requires Inv(g, init, c) && Survives(c.disk, survivor)
    ensures SameFrame(g, init, survivor)
    ensures var p := Overlay(Plain(g, init), c.log);
      match Suspect(c.log)
      case None => Plain(g, survivor) == p
      case Some(x) => Outside(Plain(g, survivor), p, x)
    ensures Unacknowledged(c.log) == if Suspect(c.log).Some? then 1 else 0
    ensures AcksFit(g.length, c.log)
  {
    hide Plain, Overlay, Suspect, Unacknowledged, AnswersAgree, AcksFit, PhaseOk, Ready;
    assert Ready(g, c) && Fits(g) by { ReadyFits(g, c); }
    AgreeingAcksFit(Plain(g, init), c.log);
    match Suspect(c.log)
    case None =>
      SurvivesOutside(c.disk, survivor, Extent(0, 0));
      assert survivor == survivor[0..] && c.disk.visible == c.disk.visible[0..];
    case Some(x) =>
      SurvivesOutside(c.disk, survivor, Extent(g.offset + x.at, x.n));
      PlainLocal(g, c.disk.visible, survivor, x);
  }

  lemma ReadyFits(g: Setup, c: Core)
    requires Ready(g, c)
    ensures Fits(g) && Shaped(c.disk) && |c.disk.visible| == g.fileLen && HeldOk(g, c)
  {
  }

  // ---- every step keeps the invariant ----

  /** An event that acknowledges nothing new leaves the array and the suspect alone. */
  predicate Quiet(e: Event) {
    !e.Began? && !(IsAck(e) && e.req.data != [])
  }

  lemma AppendQuiet(p: seq<Byte>, log: seq<Event>, e: Event)
    requires Quiet(e)
    ensures Overlay(p, log + [e]) == Overlay(p, log)
    ensures Suspect(log + [e]) == Suspect(log) && Unacknowledged(log + [e]) == Unacknowledged(log)
    ensures HistoryOk(p, log) && AnswerAgrees(p, log + [e], |log|) ==> HistoryOk(p, log + [e])
  {
    Append(p, log, e);
    if IsAck(e) && e.req.offset <= |p| {
      assert Splice(Overlay(p, log), e.req.offset, []) == Overlay(p, log);
    }
    if HistoryOk(p, log) && AnswerAgrees(p, log + [e], |log|) {
      AppendReads(p, log, e);
    }
  }

  lemma AcquireInv(g: Setup, init: seq<Byte>, c: Core, t: nat, req: Request)
    requires Inv(g, init, c) && c.lock.Free? && Refusal(g, false, req).None?
    ensures Inv(g, init, Acquire(g, c, t, req))
  {
    hide Plain, Overlay, Suspect, Unacknowledged, AnswersAgree, Settled, SameFrame, Sound;
    AcquireReady(g, c, t, req);
    var r := Acquire(g, c, t, req);
    if r.lock.Free? {
      AppendQuiet(Plain(g, init), c.log, r.log[|c.log|]);
      assert r.log == c.log + [r.log[|c.log|]];
    }
  }

  /** Leaving the critical section without acknowledging anything. */
  lemma LeaveInv(g: Setup, init: seq<Byte>, c: Core, d: Disk, e: Event, r: Core)
    requires Inv(g, init, c) && c.lock.Held?
    requires d == c.disk || d == SyncLost(c.disk)
    requires Quiet(e) && (e.Returned? ==> e.result.Err? || e.req.Flush?)
    requires r.disk == d && r.lock == Free && r.log == c.log + [e]
    requires (r.faulted || r.poisoned) || (Suspect(c.log).None? && d == c.disk)
    ensures Inv(g, init, r)
  {
    hide Plain, Overlay, Suspect, Unacknowledged, AnswersAgree, SameFrame;
    AppendQuiet(Plain(g, init), c.log, e);
  }

  /** Staying inside it with the file and the history unchanged. */
  lemma StayInv(g: Setup, init: seq<Byte>, c: Core, r: Core)
    requires Inv(g, init, c) && c.lock.Held? && r.lock.Held? && Ready(g, r)
    requires r == c.(lock := r.lock) && r.lock.req == c.lock.req
    requires c.lock.req.Write? ==>
      !c.lock.phase.StatWrite? && !c.lock.phase.Writing? && !r.lock.phase.StatWrite? && !r.lock.phase.Writing?
    requires r.lock.phase.Reading? ==> GotOk(g, r.disk, r.lock.req, r.lock.phase.got)
    ensures Inv(g, init, r)
  {
  }

  lemma StatReadInv(g: Setup, init: seq<Byte>, c: Core, a: Action)
    requires Inv(g, init, c) && c.lock.Held? && c.lock.phase.StatRead? && !a.Panic?
    ensures Inv(g, init, Call(g, c, a))
  {
    hide Plain, Overlay, Suspect, Unacknowledged, AnswersAgree, SameFrame, Settled, Sound;
    CallReady(g, c, a);
    var t, req, r := c.lock.tid, c.lock.req, Call(g, c, a);
    if r.lock.Held? {
      ReadFits(g, req);
      assert [] == c.disk.visible[ReadStart(g, req)..ReadStart(g, req)];
      StayInv(g, init, c, r);
    } else {
      LeaveInv(g, init, c, c.disk, r.log[|c.log|], r);
    }
  }

  /** The bytes cut out of the decrypted span are the bytes of the array. */
  lemma AnswerIsSlice(g: Setup, file: seq<Byte>, req: Request, got: seq<Byte>)
    requires Fits(g) && |file| == g.fileLen && ReadOk(g, req) && |got| == Span(req)
    requires ReadStart(g, req) + Span(req) <= |file| && got == file[ReadStart(g, req)..ReadStart(g, req) + Span(req)]
    ensures Answer(g, req, got) == Plain(g, file)[req.offset..req.offset + req.len]
  {
    hide Crypt;
    var k, m := FirstSector(req.offset), EndSector(req.offset, req.len) - FirstSector(req.offset);
    var lo, hi := 512 * k, 512 * k + 512 * m;
    var payload := file[g.offset..g.offset + g.length];
    SpanFits(g.length, req.offset, req.len);
    CryptWindow(g.cipher, Decrypt, g.key, 0, payload, k, m);
    SliceOfSlice(file, g.offset, g.offset + g.length, lo, hi);
    SliceOfSlice(Plain(g, file), lo, hi, req.offset - lo, req.offset - lo + req.len);
  }

  lemma ReadingTurn(g: Setup, c: Core, a: Action)
    requires Ready(g, c) && c.lock.Held? && c.lock.phase.Reading? && !a.Panic?
    requires GotOk(g, c.disk, c.lock.req, c.lock.phase.got)
    ensures var d, req, n := c.disk, c.lock.req, |c.lock.phase.got|;
      var m := Amount(a, Span(req) - n);
      var at := ReadStart(g, req);
      && at + Span(req) <= |d.visible| && n < Span(req)
      && (if a.Interrupted? then TurnOf(g, c, a) == Go(d, c.lock.phase)
          else if m == 0 then TurnOf(g, c, a) == ReadFailed(g, d)
          else if n + m == Span(req) then TurnOf(g, c, a)
            == Answered(d, Ok(Answer(g, req, d.visible[at..at + n + m])), false)
          else TurnOf(g, c, a) == Go(d, Reading(d.visible[at..at + n + m])))
  {
    hide Span, Answer;
    var d, req, n := c.disk, c.lock.req, |c.lock.phase.got|;
    ReadFits(g, req);
    var at, m := ReadStart(g, req), Amount(a, Span(req) - n);
    assert d.visible[at..at + n] + d.visible[at + n..at + n + m] == d.visible[at..at + n + m];
  }

  lemma ReadingInv(g: Setup, init: seq<Byte>, c: Core, a: Action)
    requires Inv(g, init, c) && c.lock.Held? && c.lock.phase.Reading? && !a.Panic?
    ensures Inv(g, init, Call(g, c, a))
  {
    hide Plain, Overlay, Suspect, HistoryOk, SameFrame, Settled, InPlace, Sound, Span, Answer, TurnOf;
    CallReady(g, c, a);
    ReadingTurn(g, c, a);
    var req, n, r := c.lock.req, |c.lock.phase.got|, Call(g, c, a);
    var m := Amount(a, Span(req) - n);
    if a.Interrupted? {
    } else if m == 0 {
      LeaveInv(g, init, c, c.disk, r.log[|c.log|], r);
    } else if n + m == Span(req) {
      ReadFinishInv(g, init, c, c.disk.visible[ReadStart(g, req)..ReadStart(g, req) + n + m], r);
    } else {
      StayInv(g, init, c, r);
    }
  }

  lemma ReadFinishInv(g: Setup, init: seq<Byte>, c: Core, got: seq<Byte>, r: Core)
    requires Inv(g, init, c) && c.lock.Held? && c.lock.phase.Reading?
    requires |got| == Span(c.lock.req) && GotOk(g, c.disk, c.lock.req, got)
    requires r == Return(c, c.lock.tid, c.lock.req, Ok(Answer(g, c.lock.req, got)))
    ensures Inv(g, init, r)
  {
    hide Plain, Overlay, Suspect, Unacknowledged, AnswersAgree, SameFrame, Sound, Span, Answer;
    var p, e := Plain(g, init), r.log[|c.log|];
    AnswerIsSlice(g, c.disk.visible, c.lock.req, got);
    assert r.log == c.log + [e] && r.log[..|c.log|] == c.log;
    AppendQuiet(p, c.log, e);
  }

  lemma StatWriteInv(g: Setup, init: seq<Byte>, c: Core, a: Action)
    requires Inv(g, init, c) && c.lock.Held? && c.lock.phase.StatWrite? && !a.Panic?
    ensures Inv(g, init, Call(g, c, a))
  {
    hide Plain, Overlay, Suspect, Unacknowledged, AnswersAgree, SameFrame, Sound;
    CallReady(g, c, a);
    var t, req, r := c.lock.tid, c.lock.req, Call(g, c, a);
    if !Completes(a) {
      LeaveInv(g, init, c, c.disk, r.log[|c.log|], r);
    } else {
      var p, e := Plain(g, init), Began(t, req.offset, req.data);
      Append(p, c.log, e);
      AppendReads(p, c.log, e);
      assert c.disk.visible[g.offset + req.offset..g.offset + req.offset] == Buffer(g, req)[..0];
    }
  }

  lemma OutsideChain(p: seq<Byte>, q: seq<Byte>, r: seq<Byte>, x: Extent)
    requires Outside(p, q, x) && Outside(q, r, x)
    ensures Outside(p, r, x) && Outside(q, p, x)
  {
  }

  /** A transfer into `x` changes the file inside `x` only. */
  lemma PutOutside(d: Disk, at: nat, b: seq<Byte>, x: Extent)
    requires Shaped(d) && at + |b| <= |d.visible| && x.at <= at && at + |b| <= x.at + x.n <= |d.visible|
    ensures Outside(Put(d, at, b).visible, d.visible, x)
    ensures DirtyWithin(d, x.at, x.at + x.n) ==> DirtyWithin(Put(d, at, b), x.at, x.at + x.n)
    ensures Put(d, at, b).visible[x.at..at + |b|] == d.visible[x.at..at] + b
    ensures Put(d, at, b).lost == d.lost
  {
  }

  lemma WritingInv(g: Setup, init: seq<Byte>, c: Core, a: Action)
    requires Inv(g, init, c) && c.lock.Held? && c.lock.phase.Writing? && !a.Panic?
    ensures Inv(g, init, Call(g, c, a))
  {
    hide Plain, Overlay, Suspect, Unacknowledged, AnswersAgree, Put, Buffer, Sound, Outside, SameFrame, DirtyWithin;
    CallReady(g, c, a);
    var t, req, done, r := c.lock.tid, c.lock.req, c.lock.phase.done, Call(g, c, a);
    var m := Amount(a, |req.data| - done);
    if a.Interrupted? {
    } else if m == 0 {
      LeaveInv(g, init, c, c.disk, r.log[|c.log|], r);
    } else {
      WritingMoves(g, init, c, m, r);
    }
  }

  lemma WritingMoves(g: Setup, init: seq<Byte>, c: Core, m: nat, r: Core)
    requires Inv(g, init, c) && c.lock.Held? && c.lock.phase.Writing? && Ready(g, r)
    requires var req, done := c.lock.req, c.lock.phase.done;
      && 0 < m <= |req.data| - done
      && r == c.(disk := Put(c.disk, g.offset + req.offset + done, Buffer(g, req)[done..done + m]), lock := r.lock)
      && r.lock == Held(c.lock.tid, req, if done + m == |req.data| then StatSync else Writing(done + m))
    ensures Inv(g, init, r)
  {
    hide Plain, Overlay, Suspect, Put, Buffer, Sound, Outside, SameFrame, DirtyWithin, HistoryOk, Settled, InPlace;
    hide ExtentOk;
    WriteMovesDisk(g, init, c.disk, Overlay(Plain(g, init), c.log), c.lock.req, c.lock.phase.done, m);
  }

  /** A transfer of the running write touches the payload inside the write only. */
  lemma WriteMovesDisk(g: Setup, init: seq<Byte>, d: Disk, p: seq<Byte>, req: Request, done: nat, m: nat)
    requires Fits(g) && WriteOk(g, req) && Shaped(d) && Sound(d) && |d.visible| == |init| == g.fileLen
    requires done + m <= |req.data|
    requires SameFrame(g, init, d.visible) && NothingLost(d)
    requires Settled(g, p, d, Some(Extent(req.offset, |req.data|))) && InPlace(g, d, req, done)
    ensures var r := Put(d, g.offset + req.offset + done, Buffer(g, req)[done..done + m]);
      && Sound(r) && SameFrame(g, init, r.visible) && NothingLost(r)
      && Settled(g, p, r, Some(Extent(req.offset, |req.data|))) && InPlace(g, r, req, done + m)
  {
    hide Plain, Put, Buffer, Sound, Outside, SameFrame, DirtyWithin;
    var at, buf, x := g.offset + req.offset, Buffer(g, req), Extent(req.offset, |req.data|);
    var b := buf[done..done + m];
    var r := Put(d, at + done, b);
    PutSound(d, at + done, b);
    PutOutside(d, at + done, b, Extent(at, x.n));
    PlainLocal(g, r.visible, d.visible, x);
    OutsideChain(Plain(g, r.visible), Plain(g, d.visible), p, x);
    SameFrameChain(g, init, d.visible, r.visible);
    assert buf[..done] + b == buf[..done + m];
  }

  lemma SameFrameChain(g: Setup, a: seq<Byte>, b: seq<Byte>, c: seq<Byte>)
    requires SameFrame(g, a, b) && SameFrame(g, c, b)
    ensures SameFrame(g, a, c)
  {
  }

  lemma StatSyncInv(g: Setup, init: seq<Byte>, c: Core, a: Action)
    requires Inv(g, init, c) && c.lock.Held? && c.lock.phase.StatSync? && !a.Panic?
    ensures Inv(g, init, Call(g, c, a))
  {
    hide Plain, Overlay, Suspect, Unacknowledged, AnswersAgree, SameFrame, Settled, Sound, InPlace;
    CallReady(g, c, a);
    var t, req, r := c.lock.tid, c.lock.req, Call(g, c, a);
    if r.lock.Held? {
      StayInv(g, init, c, r);
    } else {
      LeaveInv(g, init, c, c.disk, r.log[|c.log|], r);
    }
  }

  /** Once the whole ciphertext is in place the file holds the array with the write laid over it. */
  lemma WriteSettles(g: Setup, file: seq<Byte>, p: seq<Byte>, req: Request)
    requires Fits(g) && |file| == g.fileLen && WriteOk(g, req)
    requires file[g.offset + req.offset..g.offset + req.offset + |req.data|] == Buffer(g, req)
    requires Outside(Plain(g, file), p, Extent(req.offset, |req.data|))
    ensures Plain(g, file) == Splice(p, req.offset, req.data)
  {
    hide Crypt;
    var k, m, at := req.offset / 512, |req.data| / 512, req.offset;
    var payload, buf := file[g.offset..g.offset + g.length], Buffer(g, req);
    SliceOfSlice(file, g.offset, g.offset + g.length, at, at + |buf|);
    assert payload[at..at + |buf|] == buf;
    SpliceIsCut(payload, at, buf);
    Cut(payload, at, at + |buf|);
    assert Splice(payload, at, buf) == payload;
    CryptSplice(g.cipher, Decrypt, g.key, payload, k, buf, m);
    CryptInverts(g.cipher, Encrypt, g.key, k, req.data);
    SpliceSame(Plain(g, file), p, at, req.data);
  }

  lemma SpliceSame(p: seq<Byte>, q: seq<Byte>, at: nat, w: seq<Byte>)
    requires at + |w| <= |p| && Outside(p, q, Extent(at, |w|))
    ensures Splice(p, at, w) == Splice(q, at, w)
  {
    SpliceIsCut(p, at, w);
    SpliceIsCut(q, at, w);
  }

  lemma SyncedClean(d: Disk)
    requires Sound(d) && NothingLost(d)
    ensures Sound(Synced(d)) && NothingLost(Synced(d)) && DirtyWithin(Synced(d), 0, 0)
  {
  }

  lemma SyncingInv(g: Setup, init: seq<Byte>, c: Core, a: Action)
    requires Inv(g, init, c) && c.lock.Held? && c.lock.phase.Syncing? && !a.Panic?
    ensures Inv(g, init, Call(g, c, a))
  {
    hide Plain, Overlay, Suspect, Unacknowledged, AnswersAgree, SameFrame, Sound, Synced, Buffer, DirtyWithin;
    hide Outside, NothingLost;
    CallReady(g, c, a);
    var t, req, r := c.lock.tid, c.lock.req, Call(g, c, a);
    if !Completes(a) {
      LeaveInv(g, init, c, SyncLost(c.disk), r.log[|c.log|], r);
    } else {
      var p, e := Plain(g, init), Returned(t, req, Ok([]));
      SyncedClean(c.disk);
      if req.Flush? {
        AppendQuiet(p, c.log, e);
      } else {
        assert Buffer(g, req)[..|req.data|] == Buffer(g, req);
        WriteSettles(g, c.disk.visible, Overlay(p, c.log), req);
        Append(p, c.log, e);
        AppendReads(p, c.log, e);
      }
    }
  }

  lemma CallInv(g: Setup, init: seq<Byte>, c: Core, a: Action)
    requires Inv(g, init, c) && c.lock.Held?
    ensures Inv(g, init, Call(g, c, a))
  {
    hide Plain, Overlay, Suspect, Unacknowledged, AnswersAgree, SameFrame, Settled, Sound;
    CallReady(g, c, a);
    var t, req, r := c.lock.tid, c.lock.req, Call(g, c, a);
    if a.Panic? {
      LeaveInv(g, init, c, c.disk, Unwound(t, req), r);
    } else {
      match c.lock.phase
      case StatRead => StatReadInv(g, init, c, a);
      case Reading(_) => ReadingInv(g, init, c, a);
      case StatWrite => StatWriteInv(g, init, c, a);
      case Writing(_) => WritingInv(g, init, c, a);
      case StatSync => StatSyncInv(g, init, c, a);
      case Syncing => SyncingInv(g, init, c, a);
    }
  }
}
