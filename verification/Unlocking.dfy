/** `unlock` of `src/volume.rs`: from an open image and a password to a session, and back after a crash. */
module Unlocking {
  import opened Basics
  import opened Sectors
  import opened Images
  import opened Device
  import opened AntiForensic
  import opened Metadata
  import opened Documents
  import opened Headers
  import opened Parsing
  import Durability
  import Runs
  import Session
  import Fields
  import Threads

  // ---- what the metadata of a file guarantees ----

  /** A file has one metadata at most. */
  lemma MetadataOne(x: Codecs, file: seq<Byte>, m: Metadata, n: Metadata)
    requires |file| < U64_LIMIT && IsMetadata(x, file, m) && IsMetadata(x, file, n)
    ensures m == n
  {
    hide Accepts, HeaderAt;
    var h, d :| Describes(x, file, h, d, m);
    var k, e :| Describes(x, file, k, e, n);
    AcceptsOne(x.b64, h.json, h.size, |file|, d, m, e, n);
  }

  /** Payload and slots fit everything the session does with them. */
  ghost predicate MetadataFits(m: Metadata, fileLen: nat) {
    && 0 < m.length && m.length % 512 == 0 && m.offset % 512 == 0 && m.offset + m.length <= fileLen
    && forall n: u32 :: n in m.slots ==> SlotFits(m.slots[n], 32 * KIB, m.offset)
  }

  lemma FileFits(x: Codecs, file: seq<Byte>, m: Metadata)
    requires |file| < U64_LIMIT && IsMetadata(x, file, m)
    ensures MetadataFits(m, |file|)
  {
    hide Accepts, HeaderAt, Part, BoundBy, PowerOfTwo;
    var h, d :| Describes(x, file, h, d, m);
    Geometry(x.b64, h.json, h.size, |file|, d, m);
    Binding(x.b64, h.json, h.size, |file|, d, m);
  }

  /** The metadata of a file lies in front of its payload. */
  lemma MetadataLocal(x: Codecs, a: seq<Byte>, b: seq<Byte>, m: Metadata)
    requires |a| == |b| < U64_LIMIT && IsMetadata(x, a, m)
    requires m.offset <= |a| && a[..m.offset] == b[..m.offset]
    ensures IsMetadata(x, b, m)
  {
    hide Accepts, HeaderAt, Part, IsHeader, PowerOfTwo;
    var h, d :| Describes(x, a, h, d, m);
    Geometry(x.b64, h.json, h.size, |a|, d, m);
    forall offset | offset == 0 || offset == h.size ensures HeaderAt(x, b, offset) == Ok(h) {
      HeaderAtIsHeader(x, a, offset, h);
      HeaderAtIsHeader(x, b, offset, h);
      SliceOfPrefix(a, m.offset, offset, offset + h.size);
      SliceOfPrefix(b, m.offset, offset, offset + h.size);
    }
    assert Describes(x, b, h, d, m);
  }

  // ---- the key of a slot ----

  /** The bytes of a keyslot area that hold its stripes. */
  ghost function AreaBytes(file: seq<Byte>, s: Slot): (r: seq<Byte>)
    requires SlotFits(s, 0, |file|)
    ensures |r| == s.keySize * STRIPES && |r| % 512 == 0 && |r| <= MAX_TRANSFER
  {
    file[s.areaOffset..s.areaOffset + s.keySize * STRIPES]
  }

  ghost function KeyFrom(x: Codecs, c: Cipher, area: seq<Byte>, s: Slot, password: seq<Byte>): (key: seq<Byte>)
    requires Sized(x.prims) && Lawful(c) && KeyLength(s.keySize) && |area| == s.keySize * STRIPES
    ensures |key| == s.keySize
  {
    WholeSectors(s.keySize);
    var derived := x.prims.derive(s.kdf, password, s.areaKeySize);
    Merged(x.prims, s.afHash, Crypt(c, Decrypt, derived, 0, area), s.keySize)
  }

  lemma WholeSectors(keySize: nat)
    requires KeyLength(keySize)
    ensures keySize * STRIPES % 512 == 0 && keySize * STRIPES <= MAX_TRANSFER
  {
  }

  /** The key a password recovers from the 4000 stripes of a slot's area. */
  ghost function RecoveredKey(x: Codecs, c: Cipher, file: seq<Byte>, s: Slot, password: seq<Byte>): (key: seq<Byte>)
    requires Sized(x.prims) && Lawful(c) && SlotFits(s, 0, |file|)
    ensures |key| == s.keySize
  {
    KeyFrom(x, c, file[s.areaOffset..s.areaOffset + s.keySize * 4000], s, password)
  }

  /**
   `plain` is the area decrypted sector by sector, counted from zero, under what the password
   derives, and `key` what its stripes merge to.
   */
  ghost predicate Recovers(x: Codecs, c: Cipher, area: seq<Byte>, s: Slot, password: seq<Byte>, key: seq<Byte>)
    requires Sized(x.prims) && KeyLength(s.keySize) && |area| == s.keySize * 4000
  {
    exists plain: seq<Byte>, states ::
      && |plain| == |area|
      && SectorBySector(c, Decrypt, x.prims.derive(s.kdf, password, s.areaKeySize), 0, area, plain)
      && MergedThrough(x.prims, s.afHash, plain, s.keySize, states, key)
  }

  lemma RecoveredKeyRecovers(x: Codecs, c: Cipher, file: seq<Byte>, s: Slot, password: seq<Byte>)
    requires Sized(x.prims) && Lawful(c) && SlotFits(s, 0, |file|)
    ensures Recovers(x, c, file[s.areaOffset..s.areaOffset + s.keySize * 4000], s, password,
      RecoveredKey(x, c, file, s, password))
  {
    hide SectorBySector, MergedThrough, Crypt, Merged, Lawful, Sized;
    var area := AreaBytes(file, s);
    var derived := x.prims.derive(s.kdf, password, s.areaKeySize);
    CryptIsSectorBySector(c, Decrypt, derived, 0, area);
    var plain := Crypt(c, Decrypt, derived, 0, area);
    var states := MergedStates(x.prims, s.afHash, plain, s.keySize);
    assert RecoveredKey(x, c, file, s, password) == Merged(x.prims, s.afHash, plain, s.keySize);
  }

  /** What a password must be before anything is derived from it, and what the slot must say. */
  ghost function Refuses(x: Codecs, c: Cipher, file: seq<Byte>, m: Metadata, keyslot: u32,
      password: seq<Byte>): Option<Error>
    requires Sized(x.prims) && Lawful(c) && MetadataFits(m, |file|)
  {
    if |password| > 4096 then Some(ResourceLimit)
    else if x.utf8(password).None? then Some(UnlockFailed)
    else if keyslot !in m.slots then Some(UnsupportedProfile)
    else
      var s := m.slots[keyslot];
      var key := KeyFrom(x, c, AreaBytes(file, s), s, password);
      if x.prims.derive(s.digestKdf, key, |s.digest|) == s.digest then None else Some(UnlockFailed)
  }

  /** The password recovers `key` from the slot, and the slot's digest vouches for it. */
  ghost predicate Unlocks(x: Codecs, c: Cipher, file: seq<Byte>, m: Metadata, keyslot: u32, password: seq<Byte>,
      key: seq<Byte>)
    requires Sized(x.prims) && Lawful(c)
  {
    && MetadataFits(m, |file|) && |password| <= 4096 && x.utf8(password).Some? && keyslot in m.slots
    && key == RecoveredKey(x, c, file, m.slots[keyslot], password)
    && x.prims.derive(m.slots[keyslot].digestKdf, key, |m.slots[keyslot].digest|) == m.slots[keyslot].digest
  }

  /** The error of an unlock, or None where it succeeds, is decided by password, slot and digest in this order. */
  ghost predicate Decides(x: Codecs, c: Cipher, file: seq<Byte>, m: Metadata, keyslot: u32, password: seq<Byte>,
      error: Option<Error>)
    requires Sized(x.prims) && Lawful(c)
  {
    && MetadataFits(m, |file|)
    && if |password| > 4096 then error == Some(ResourceLimit)
       else if x.utf8(password).None? then error == Some(UnlockFailed)
       else if keyslot !in m.slots then error == Some(UnsupportedProfile)
       else
         var s := m.slots[keyslot];
         var key := RecoveredKey(x, c, file, s, password);
         error == if x.prims.derive(s.digestKdf, key, |s.digest|) == s.digest then None else Some(UnlockFailed)
  }

  /** The session constants a successful unlock yields. */
  ghost predicate Yields(x: Codecs, c: Cipher, file: seq<Byte>, m: Metadata, keyslot: u32, password: seq<Byte>,
      g: Setup)
    requires Sized(x.prims) && Lawful(c) && MetadataFits(m, |file|)
  {
    && Refuses(x, c, file, m, keyslot, password).None?
    && g.cipher == c && g.offset == m.offset && g.length == m.length && g.fileLen == |file|
    && g.key == KeyFrom(x, c, AreaBytes(file, m.slots[keyslot]), m.slots[keyslot], password)
  }

  /** The metadata of the file, slot and password yield the session `g` and vouch for its key. */
  ghost predicate Grants(x: Codecs, c: Cipher, file: seq<Byte>, keyslot: u32, password: seq<Byte>, g: Setup)
    requires Sized(x.prims) && Lawful(c) && |file| < U64_LIMIT
  {
    exists m :: IsMetadata(x, file, m) && Unlocks(x, c, file, m, keyslot, password, g.key)
      && Yields(x, c, file, m, keyslot, password, g)
  }

  /** Where the file has metadata, it decides the error. */
  ghost predicate Decided(x: Codecs, c: Cipher, file: seq<Byte>, keyslot: u32, password: seq<Byte>,
      error: Option<Error>)
    requires Sized(x.prims) && Lawful(c) && |file| < U64_LIMIT
  {
    forall m :: IsMetadata(x, file, m) ==> Decides(x, c, file, m, keyslot, password, error)
  }

  /** What an unlock yields is what the device needs: nothing is left to assume. */
  lemma YieldsFits(x: Codecs, c: Cipher, file: seq<Byte>, m: Metadata, keyslot: u32, password: seq<Byte>, g: Setup)
    requires Sized(x.prims) && Lawful(c) && |file| < U64_LIMIT && MetadataFits(m, |file|)
    requires Yields(x, c, file, m, keyslot, password, g)
    ensures Fits(g)
    ensures forall offset, n :: RangeOk(g.length, offset, n) ==> g.offset + offset + n <= |file|
    ensures forall k: u32 :: k in m.slots ==> m.slots[k].areaOffset + m.slots[k].keySize * STRIPES <= g.offset
  {
    hide Lawful;
  }

  /**
   Reads the metadata, derives, decrypts, merges and checks. A session comes out only with
   the constants its image yields. Unless its last call went wrong the outcome is decided by the
   password and the slot alone: no size or cost check can refuse accepted metadata.
   */
  method Unlock(x: Codecs, c: Cipher, image: Image, keyslot: u32,
      password: seq<Byte>) returns (e: Ended<Session.Volume>)
    requires image.Valid() && Sized(x.prims) && Lawful(c)
    modifies image`plan
    ensures e.Done? && e.result.Ok? ==> fresh(e.result.value) && e.result.value.Valid() && e.result.value.image == image
    ensures e.Done? && e.result.Ok? ==> !e.result.value.faulted && !e.result.value.poisoned && e.result.value.log == []
    ensures e.Done? && e.result.Ok? ==> Grants(x, c, image.disk.visible, keyslot, password, e.result.value.G())
    ensures !Broke(old(image.plan), image.plan) ==>
      Decided(x, c, image.disk.visible, keyslot, password,
        if e.Done? && e.result.Err? then Some(e.result.error) else None)
    ensures Advanced(old(image.plan), image.plan)
    ensures !Broke(old(image.plan), image.plan) ==> e.Done?
    ensures !Broke(old(image.plan), image.plan) && (forall m :: !IsMetadata(x, image.disk.visible, m)) ==> e.result.Err?
  {
    hide IsMetadata, Failing, Calms, Sound, Lawful, Sized, Diffuse;
    ghost var file := image.disk.visible;
    var read := ReadMetadata(x, image);
    if read.Panicked? {
      return Panicked;
    }
    if read.result.Err? {
      return Done(Err(read.result.error));
    }
    var m := read.result.value;
    FileFits(x, file, m);
    forall n | IsMetadata(x, file, n) ensures n == m {
      MetadataOne(x, file, m, n);
    }
    if |password| > 4096 {
      return Done(Err(ResourceLimit));
    }
    if x.utf8(password).None? {
      return Done(Err(UnlockFailed));
    }
    if keyslot !in m.slots {
      return Done(Err(UnsupportedProfile));
    }
    var s := m.slots[keyslot];
    var found := OpenSlot(x, c, image, s, password);
    if found.Panicked? {
      return Panicked;
    }
    if found.result.Err? {
      return Done(Err(found.result.error));
    }
    ghost var g := Setup(c, found.result.value, m.offset, m.length, image.len, image.mode);
    assert Yields(x, c, file, m, keyslot, password, g);
    YieldsFits(x, c, file, m, keyslot, password, g);
    var v := new Session.Volume(c, found.result.value, m.offset, m.length, image);
    assert v.G() == g;
    return Done(Ok(v));
  }

  /** From a slot and a password to the volume key. */
  method OpenSlot(x: Codecs, c: Cipher, image: Image, s: Slot, password: seq<Byte>) returns (e: Ended<seq<Byte>>)
    requires image.Valid() && Sized(x.prims) && Lawful(c) && SlotFits(s, 0, image.len)
    modifies image`plan
    ensures var key := RecoveredKey(x, c, image.disk.visible, s, password);
      || (e == Done(Ok(key)) && x.prims.derive(s.digestKdf, key, |s.digest|) == s.digest)
      || (e == Done(Err(UnlockFailed)) && x.prims.derive(s.digestKdf, key, |s.digest|) != s.digest)
      || (Broke(old(image.plan), image.plan) && (e.Panicked? || e == Done(Err(BackendIo))))
    ensures Advanced(old(image.plan), image.plan)
  {
    hide Failing, Calms, Sound, Lawful, Merged, Crypt;
    ghost var area := AreaBytes(image.disk.visible, s);
    WholeSectors(s.keySize);
    Fields.AffordableDerives(x.prims, s.kdf, password, s.areaKeySize);
    var derived := Derive(x.prims, s.kdf, password, s.areaKeySize);
    assert derived.Ok?;
    var encrypted := new Byte[s.keySize * STRIPES];
    var r := Fetch(image, s.areaOffset, encrypted);
    if r.Panicked? {
      return Panicked;
    }
    if r.result.Err? {
      return Done(Err(r.result.error));
    }
    assert encrypted[..] == area;
    var af := CryptSectors(c, derived.value, 0, encrypted[..], Decrypt);
    assert af == Ok(Crypt(c, Decrypt, derived.value, 0, area));
    var key := AfMerge(x.prims, af.value, s.keySize, s.afHash);
    assert key == Ok(KeyFrom(x, c, area, s, password));
    Fields.AffordableDerives(x.prims, s.digestKdf, key.value, |s.digest|);
    var digest := Derive(x.prims, s.digestKdf, key.value, |s.digest|);
    assert digest.Ok?;
    if digest.value != s.digest {
      return Done(Err(UnlockFailed));
    }
    return Done(Ok(key.value));
  }

  // ---- round trips ----

  /** What formatting stores in the area of a slot: the split key, encrypted under the password. */
  ghost function Stored(x: Codecs, c: Cipher, s: Slot, password: seq<Byte>, stripes: seq<Byte>,
      key: seq<Byte>): (area: seq<Byte>)
    requires Sized(x.prims) && Lawful(c) && KeyLength(s.keySize) && |key| == s.keySize
      && |stripes| == s.keySize * (STRIPES - 1)
    ensures |area| == s.keySize * STRIPES
  {
    WholeSectors(s.keySize);
    Crypt(c, Encrypt, x.prims.derive(s.kdf, password, s.areaKeySize), 0,
      stripes + LastStripe(x.prims, s.afHash, stripes, key))
  }

  /** Any key, stored under any password with any random stripes, comes back under that password. */
  lemma KeyRoundTrip(x: Codecs, c: Cipher, s: Slot, password: seq<Byte>, stripes: seq<Byte>, key: seq<Byte>)
    requires Sized(x.prims) && Lawful(c) && KeyLength(s.keySize) && |key| == s.keySize
      && |stripes| == s.keySize * (STRIPES - 1)
    ensures KeyFrom(x, c, Stored(x, c, s, password, stripes, key), s, password) == key
  {
    hide Crypt, Merged, LastStripe, Sized, Lawful;
    WholeSectors(s.keySize);
    var last := LastStripe(x.prims, s.afHash, stripes, key);
    CryptInverts(c, Encrypt, x.prims.derive(s.kdf, password, s.areaKeySize), 0, stripes + last);
    MergeInvertsSplit(x.prims, s.afHash, stripes, last, key);
  }

  /**
   After any run, cut short anywhere, with any file the crash can leave: the file has the
   same metadata, every keyslot answers every password as before, and the payload under
   the same key is the initial one with the acknowledged writes laid over it, but for the
   one write that was under way.
   */
  lemma Reopen(x: Codecs, g: Setup, file: seq<Byte>, steps: seq<Threads.Step>, survivor: seq<Byte>, m: Metadata,
      keyslot: u32, password: seq<Byte>)
    requires Sized(x.prims) && Lawful(g.cipher) && |file| < U64_LIMIT && IsMetadata(x, file, m)
      && MetadataFits(m, |file|)
    requires Yields(x, g.cipher, file, m, keyslot, password, g)
    requires Runs.Session(g, file, steps) && Survives(Runs.After(g, file, steps).core.disk, survivor)
    ensures |survivor| == |file| && IsMetadata(x, survivor, m)
    ensures Yields(x, g.cipher, survivor, m, keyslot, password, g)
    ensures forall k: u32, p: seq<Byte> ::
      Refuses(x, g.cipher, survivor, m, k, p) == Refuses(x, g.cipher, file, m, k, p)
    ensures var log, init := Runs.After(g, file, steps).core.log, Durability.Plain(g, file);
      match Durability.Suspect(log)
      case None => Durability.Plain(g, survivor) == Durability.Overlay(init, log)
      case Some(w) => Durability.Outside(Durability.Plain(g, survivor), Durability.Overlay(init, log), w)
  {
    hide IsMetadata, Lawful, Sized, KeyFrom, Runs.Session, Runs.After, Durability.Plain, Durability.Overlay;
    hide Durability.Suspect;
    Runs.CrashDurability(g, file, steps, survivor);
    MetadataLocal(x, file, survivor, m);
    AreasKept(file, survivor, m);
  }

  /** Files that agree in front of the payload agree on every keyslot area. */
  lemma AreasKept(a: seq<Byte>, b: seq<Byte>, m: Metadata)
    requires |a| == |b| && MetadataFits(m, |a|) && a[..m.offset] == b[..m.offset]
    ensures forall k: u32 :: k in m.slots ==> AreaBytes(a, m.slots[k]) == AreaBytes(b, m.slots[k])
  {
    forall k: u32 | k in m.slots ensures AreaBytes(a, m.slots[k]) == AreaBytes(b, m.slots[k]) {
      var s := m.slots[k];
      var lo, hi := s.areaOffset, s.areaOffset + s.keySize * STRIPES;
      SliceOfPrefix(a, m.offset, lo, hi);
      SliceOfPrefix(b, m.offset, lo, hi);
    }
  }
}
