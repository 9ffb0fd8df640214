/** The unlocked and validated volume of `src/volume.rs` as an object over its open image. */
module Session {
  import opened Basics
  import opened Sectors
  import opened Images
  import opened Device
  import opened Volumes
  import opened Outcomes

  /** An unlocked volume. `log` is the history of module Device, kept for the contracts. */
  class Volume {
    const cipher: Cipher
    const key: seq<Byte>
    const offset: u64
    const length: u64
    const image: Image
    var faulted: bool
    var poisoned: bool
    ghost var log: seq<Event>

    ghost function G(): Setup
    {
      Setup(cipher, key, offset, length, image.len, image.mode)
    }

    ghost predicate Valid()
      reads this, image
    {
      image.Valid() && Ready(G(), State())
    }

    ghost function State(): Core
      reads this, image
    {
      Core(image.disk, faulted, poisoned, Free, log)
    }

    constructor (cipher: Cipher, key: seq<Byte>, offset: u64, length: u64, image: Image)
      requires image.Valid() && Fits(Setup(cipher, key, offset, length, image.len, image.mode))
      ensures Valid() && this.cipher == cipher && this.key == key && this.offset == offset
      ensures this.length == length && this.image == image
      ensures !faulted && !poisoned && log == []
    {
      this.cipher, this.key, this.offset, this.length, this.image := cipher, key, offset, length, image;
      faulted, poisoned, log := false, false, [];
    }

    /** Takes the lock: refused when a holder panicked or the session is faulted. */
    method Enter(ghost t: nat, ghost req: Request) returns (ok: bool)
      requires Valid() && Refusal(G(), false, req).None?
      modifies this
      ensures Valid() && ok == !(old(poisoned) || old(faulted))
      ensures poisoned == old(poisoned) && faulted == (old(faulted) || old(poisoned))
      ensures log == if ok then old(log) else old(log) + [Returned(t, req, Err(WritebackFailed))]
    {
      if poisoned {
        faulted := true;
      }
      ok := !faulted;
      if !ok {
        log := log + [Returned(t, req, Err(WritebackFailed))];
      }
    }

    method ReadAt(offset: u64, len: nat, ghost t: nat) returns (e: Ended<seq<Byte>>)
      requires Valid()
      modifies this, image
      ensures Valid()
      ensures (State(), image.plan) == Solo(G(), old(State()), false, t, Read(offset, len), old(image.plan))
      ensures Answers(log, e)
      ensures ReadServed(G(), old(State()), State(), old(image.plan), image.plan, offset, len, e)
      ensures e.Done? && e.result.Ok? ==> |e.result.value| == len
    {
      hide WriteServed, ReadServed, FlushServed, Intact;
      forall r | Answers(Solo(G(), State(), false, t, Read(offset, len), image.plan).0.log, r)
        ensures var s := Solo(G(), State(), false, t, Read(offset, len), image.plan);
          Intact(G(), State()) && ReadServed(G(), State(), s.0, image.plan, s.1, offset, len, r)
      {
        SoloRead(G(), State(), t, offset, len, image.plan, r);
      }
      ghost var g, req := G(), Read(offset, len);
      log := log + [Invoked(t, req)];
      var inside := Enter(t, req);
      if !inside {
        return Done(Err(WritebackFailed));
      }
      if !RangeOk(length, offset, len) {
        log := log + [Returned(t, req, Err(InvalidRange))];
        return Done(Err(InvalidRange));
      }
      if len == 0 {
        log := log + [Returned(t, req, Ok([]))];
        return Done(Ok([]));
      }
      // In a volume of whole sectors the span of an in-range read cannot leave 64 bits.
      NoReadOverflows(g, offset, len);
      SpanFits(length, offset, len);
      var begin, end := offset / 512 * 512, (offset + len + 511) / 512 * 512;
      if end - begin > MAX_TRANSFER {
        log := log + [Returned(t, req, Err(InvalidRange))];
        return Done(Err(InvalidRange));
      }
      e := ReadSpan(offset, len, begin, end - begin, t);
    }

    /** The transfer, the decryption and the cut of an accepted read. */
    method ReadSpan(offset: u64, len: nat, begin: nat, span: nat, ghost t: nat) returns (e: Ended<seq<Byte>>)
      requires Valid() && !faulted && !poisoned && ReadOk(G(), Read(offset, len))
      requires begin == 512 * FirstSector(offset) && span == Span(Read(offset, len))
      modifies this, image
      ensures Valid()
      ensures (State(), image.plan)
           == Finish(G(), old(State()).(lock := Held(t, Read(offset, len), StatRead)), old(image.plan))
      ensures Answers(log, e)
      ensures e.Done? && e.result.Ok? ==> |e.result.value| == len
    {
      hide Finish, ReadExact, Crypt;
      ghost var g, req := G(), Read(offset, len);
      ghost var c := State().(lock := Held(t, req, StatRead));
      ReadyIs(g, State());
      ReadFits(g, req);
      SpanFits(length, offset, len);
      FinishRead(g, c, image.plan);
      var encrypted := new Byte[span];
      var r, _ := image.ReadExactAt(this.offset + begin, encrypted);
      if r.Panicked? {
        poisoned := true;
        log := log + [Unwound(t, req)];
        return Panicked;
      }
      if r.result.Err? {
        if image.mode == ReadWriteMode {
          faulted := true;
          log := log + [Returned(t, req, Err(WritebackFailed))];
          return Done(Err(WritebackFailed));
        }
        log := log + [Returned(t, req, Err(BackendIo))];
        return Done(Err(BackendIo));
      }
      var plain := CryptSectors(cipher, key, begin / 512, encrypted[..], Decrypt);
      assert plain == Ok(Crypt(cipher, Decrypt, key, FirstSector(offset), encrypted[..]));
      var start := offset - begin;
      e := Done(Ok(plain.value[start..start + len]));
      log := log + [Returned(t, req, e.result)];
    }

    /** Synchronous: it answers after the bytes and the sync, or faults the session. */
    method WriteAt(offset: u64, plaintext: seq<Byte>, ghost t: nat) returns (e: Ended<seq<Byte>>)
      requires Valid()
      modifies this, image
      ensures Valid()
      ensures (State(), image.plan) == Solo(G(), old(State()), false, t, Write(offset, plaintext), old(image.plan))
      ensures Answers(log, e)
      ensures WriteServed(G(), old(State()), State(), old(image.plan), image.plan, offset, plaintext, e)
    {
      hide WriteServed, ReadServed, FlushServed, Intact;
      forall r | Answers(Solo(G(), State(), false, t, Write(offset, plaintext), image.plan).0.log, r)
        ensures var s := Solo(G(), State(), false, t, Write(offset, plaintext), image.plan);
          Intact(G(), State()) && Intact(G(), s.0)
            && WriteServed(G(), State(), s.0, image.plan, s.1, offset, plaintext, r)
      {
        SoloWrite(G(), State(), t, offset, plaintext, image.plan, r);
      }
      ghost var req := Write(offset, plaintext);
      log := log + [Invoked(t, req)];
      if image.mode != ReadWriteMode {
        log := log + [Returned(t, req, Err(ReadOnly))];
        return Done(Err(ReadOnly));
      }
      if !RangeOk(length, offset, |plaintext|) || offset % 512 != 0 || |plaintext| % 512 != 0 {
        log := log + [Returned(t, req, Err(InvalidRange))];
        return Done(Err(InvalidRange));
      }
      var inside := Enter(t, req);
      if !inside {
        return Done(Err(WritebackFailed));
      }
      if plaintext == [] {
        log := log + [Returned(t, req, Ok([]))];
        return Done(Ok([]));
      }
      e := WriteSpan(offset, plaintext, t);
    }

    /** Encrypts, transfers and syncs an accepted write. */
    method WriteSpan(offset: u64, plaintext: seq<Byte>, ghost t: nat) returns (e: Ended<seq<Byte>>)
      requires Valid() && !faulted && !poisoned && WriteOk(G(), Write(offset, plaintext))
      modifies this, image
      ensures Valid()
      ensures (State(), image.plan)
           == Finish(G(), old(State()).(lock := Held(t, Write(offset, plaintext), StatWrite)), old(image.plan))
      ensures Answers(log, e)
    {
      hide Finish, WriteAll, SyncRun, Crypt;
      ghost var g, req := G(), Write(offset, plaintext);
      ghost var c := State().(lock := Held(t, req, StatWrite));
      ReadyIs(g, State());
      FinishWrite(g, c, image.plan);
      // Neither the sector numbers nor the target leave 64 bits inside the volume.
      assert offset / 512 + |plaintext| / 512 <= U64_LIMIT && this.offset + offset < U64_LIMIT;
      var encrypted := CryptSectors(cipher, key, offset / 512, plaintext, Encrypt);
      assert encrypted == Ok(Buffer(g, req));
      ghost var plan := image.plan;
      var w := image.WriteAllAt(this.offset + offset, encrypted.value);
      if Completes(Take(plan)) {
        log := log + [Began(t, offset, plaintext)];
      }
      if w.Panicked? {
        poisoned := true;
        log := log + [Unwound(t, req)];
        return Panicked;
      }
      if w.result.Err? {
        faulted := true;
        log := log + [Returned(t, req, Err(WritebackFailed))];
        return Done(Err(WritebackFailed));
      }
      e := SyncNow(t, req);
    }

    /** The sync that ends a write or makes up a flush. */
    method SyncNow(ghost t: nat, ghost req: Request) returns (e: Ended<seq<Byte>>)
      requires image.Valid() && Ready(G(), State().(lock := Held(t, req, StatSync))) && !faulted && !poisoned
      modifies this, image
      ensures Valid()
      ensures (State(), image.plan) == Finish(G(), old(State()).(lock := Held(t, req, StatSync)), old(image.plan))
      ensures Answers(log, e)
    {
      hide Finish, SyncRun;
      FinishSync(G(), State().(lock := Held(t, req, StatSync)), image.plan);
      var s := image.Sync();
      if s.Panicked? {
        poisoned := true;
        log := log + [Unwound(t, req)];
        return Panicked;
      }
      if s.result.Err? {
        faulted := true;
        log := log + [Returned(t, req, Err(WritebackFailed))];
        return Done(Err(WritebackFailed));
      }
      log := log + [Returned(t, req, Ok([]))];
      return Done(Ok([]));
    }

    method FlushAll(ghost t: nat) returns (e: Ended<seq<Byte>>)
      requires Valid()
      modifies this, image
      ensures Valid()
      ensures (State(), image.plan) == Solo(G(), old(State()), false, t, Flush, old(image.plan))
      ensures Answers(log, e)
      ensures FlushServed(G(), old(State()), State(), old(image.plan), image.plan, e)
    {
      hide WriteServed, ReadServed, FlushServed, Intact;
      forall r | Answers(Solo(G(), State(), false, t, Flush, image.plan).0.log, r)
        ensures var s := Solo(G(), State(), false, t, Flush, image.plan);
          Intact(G(), State()) && Intact(G(), s.0) && FlushServed(G(), State(), s.0, image.plan, s.1, r)
      {
        SoloFlush(G(), State(), t, image.plan, r);
      }
      log := log + [Invoked(t, Flush)];
      var inside := Enter(t, Flush);
      if !inside {
        return Done(Err(WritebackFailed));
      }
      e := SyncNow(t, Flush);
    }

    method MarkFaulted()
      requires Valid()
      modifies this`faulted
      ensures Valid() && faulted
    {
      faulted := true;
    }
  }
}
