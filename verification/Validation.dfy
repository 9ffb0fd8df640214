/** `validate` of `src/volume.rs`: the filesystem policy, read through the decrypting session. */
module Validation {
  import opened Basics
  import opened Images
  import opened Device
  import opened Volumes
  import opened Session
  import opened Outcomes
  import Durability
  import Probe

  /** What a probe read of a healthy session answers, unless its last call went wrong. */
  ghost function ReadAnswer(g: Setup, file: seq<Byte>, offset: u64, n: nat): Result<seq<Byte>>
    requires Fits(g) && |file| == g.fileLen
  {
    if n > 1048576 || offset + n > g.length then Err(InvalidRange)
    else if n > 0 && 512 * ((offset + n + 511) / 512) - 512 * (offset / 512) > 1048576 then Err(InvalidRange)
    else Ok(Durability.Plain(g, file)[offset..offset + n])
  }

  /** One probe read: refused by a failed session, otherwise the plain bytes. */
  method ProbeRead(v: Volume, offset: u64, n: nat) returns (e: Ended<seq<Byte>>)
    requires v.Valid()
    modifies v, v.image
    ensures v.Valid() && v.image.disk == old(v.image.disk)
    ensures old(v.faulted || v.poisoned) ==> e == Done(Err(WritebackFailed))
    ensures old(v.faulted || v.poisoned)
      || (e == Done(ReadAnswer(v.G(), v.image.disk.visible, offset, n)) && !v.faulted && !v.poisoned)
      || (Broke(old(v.image.plan), v.image.plan) && (e.Panicked? || e.result.Err?))
    ensures Advanced(old(v.image.plan), v.image.plan)
  {
    hide Solo, Failing, Calms, Ready, Durability.Plain;
    ReadyIs(v.G(), v.State());
    ghost var p := Durability.Plain(v.G(), v.image.disk.visible);
    assert offset <= |p| ==> p[offset..offset] == [];
    e := v.ReadAt(offset, n, 0);
  }

  /**
   The probe: its verdict is that of the policy on the decrypted payload, unless a call went
   wrong, and then it is no acceptance of a bad payload. A failed session is not accepted.
   */
  method Validate(crc: Probe.Crc, v: Volume, fs: Probe.Filesystem) returns (e: Ended<()>)
    requires v.Valid()
    modifies v, v.image
    ensures v.Valid() && v.image.disk == old(v.image.disk)
    ensures old(v.faulted || v.poisoned) ==> e == Done(Err(WritebackFailed))
    ensures old(v.faulted || v.poisoned)
      || e == Done(Probe.Check(crc, Durability.Plain(v.G(), v.image.disk.visible), fs))
      || (Broke(old(v.image.plan), v.image.plan) && (e.Panicked? || e.result.Err?))
  {
    hide ReadAnswer, Failing, Calms, Durability.Plain, Probe.Ext4Policy, Probe.BtrfsAt, Probe.MirrorsFrom;
    hide Ready;
    ReadyIs(v.G(), v.State());
    ghost var p := Durability.Plain(v.G(), v.image.disk.visible);
    if fs.Ext4? {
      ProbeAnswer(v.G(), v.image.disk.visible, 1024, 1024);
      var s := ProbeRead(v, 1024, 1024);
      if s.Panicked? {
        return Panicked;
      }
      if s.result.Err? {
        return Done(Err(s.result.error));
      }
      return Done(Probe.Ext4Policy(crc, s.result.value, v.length));
    }
    ProbeAnswer(v.G(), v.image.disk.visible, Probe.PRIMARY, Probe.SUPER);
    var s := ProbeRead(v, Probe.PRIMARY, Probe.SUPER);
    if s.Panicked? {
      return Panicked;
    }
    if s.result.Err? {
      return Done(Err(s.result.error));
    }
    var primary := Probe.BtrfsAt(crc, s.result.value, v.length, Probe.PRIMARY);
    if primary.Err? {
      return Done(Err(primary.error));
    }
    e := Mirrors(crc, v, s.result.value);
  }

  lemma ProbeAnswer(g: Setup, file: seq<Byte>, offset: u64, n: nat)
    requires Fits(g) && |file| == g.fileLen && 0 < n <= 4096 && offset % 512 == 0 && n % 512 == 0
    ensures ReadAnswer(g, file, offset, n) ==
      if n > 1048576 || offset + n > g.length then Err(InvalidRange)
    else if n > 0 && 512 * ((offset + n + 511) / 512) - 512 * (offset / 512) > 1048576 then Err(InvalidRange)
    else Ok(Durability.Plain(g, file)[offset..offset + n])
  {
  }

  /** The mirrors in ascending order, up to the first beyond the volume. */
  method Mirrors(crc: Probe.Crc, v: Volume, primary: seq<Byte>) returns (e: Ended<()>)
    requires v.Valid() && !v.faulted && !v.poisoned && Probe.PRIMARY + Probe.SUPER <= v.length
    requires primary == Durability.Plain(v.G(), v.image.disk.visible)[Probe.PRIMARY..Probe.PRIMARY + Probe.SUPER]
    modifies v, v.image
    ensures v.Valid() && v.image.disk == old(v.image.disk)
    ensures e == Done(Probe.MirrorsFrom(crc, Durability.Plain(v.G(), v.image.disk.visible), 0))
      || (Broke(old(v.image.plan), v.image.plan) && (e.Panicked? || e.result.Err?))
  {
    hide ReadAnswer, Failing, Calms, Durability.Plain, Probe.BtrfsAt, Probe.SameCommit, Ready;
    ReadyIs(v.G(), v.State());
    ghost var p := Durability.Plain(v.G(), v.image.disk.visible);
    var k := 0;
    while k < |Probe.MIRRORS|
      invariant 0 <= k <= |Probe.MIRRORS| && v.Valid() && !v.faulted && !v.poisoned && v.image.disk == old(v.image.disk)
      invariant Probe.MirrorsFrom(crc, p, 0) == Probe.MirrorsFrom(crc, p, k)
      invariant Advanced(old(v.image.plan), v.image.plan)
    {
      var offset := Probe.MIRRORS[k];
      if offset + Probe.SUPER > v.length {
        break;
      }
      ProbeAnswer(v.G(), v.image.disk.visible, offset, Probe.SUPER);
      var mirror := ProbeRead(v, offset, Probe.SUPER);
      if mirror.Panicked? {
        return Panicked;
      }
      if mirror.result.Err? {
        return Done(Err(mirror.result.error));
      }
      var policy := Probe.BtrfsAt(crc, mirror.result.value, v.length, offset);
      if policy.Err? {
        return Done(Err(policy.error));
      }
      if !Probe.SameCommit(primary, mirror.result.value) {
        return Done(Err(FsRecoveryRequired));
      }
      k := k + 1;
    }
    return Done(Ok(()));
  }
}
