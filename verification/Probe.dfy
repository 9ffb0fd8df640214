/** The superblock policies of `src/probe.rs`. The CRC-32C function is a value. */
module Probe {
  import opened Basics
  import opened Bits

  type Crc = seq<Byte> -> u32

  datatype Filesystem = Btrfs | Ext4

  // ---- little-endian fields and bits ----

  function Le(b: seq<Byte>): (n: nat)
    ensures n < Pow256(|b|)
  {
    FromLittleEndian(Octets(b))
  }

  function U8(s: seq<Byte>, p: nat): nat
    requires p < |s|
  {
    s[p] as int
  }

  function U16(s: seq<Byte>, p: nat): nat
    requires p + 2 <= |s|
  {
    Le(s[p..p + 2])
  }

  function U32(s: seq<Byte>, p: nat): (n: nat)
    requires p + 4 <= |s|
    ensures n < 0x1_0000_0000
  {
    assert Pow256(4) == 0x1_0000_0000;
    Le(s[p..p + 4])
  }

  function U64(s: seq<Byte>, p: nat): (n: nat)
    requires p + 8 <= |s|
    ensures n < U64_LIMIT
  {
    assert Pow256(4) == 0x1_0000_0000 && Pow256(6) == 0x1_0000 * Pow256(4) && Pow256(8) == 0x1_0000 * Pow256(6);
    Le(s[p..p + 8])
  }

  // ---- Btrfs ----

  const SUPER: nat := 4096
  const PRIMARY: nat := 65536
  const MIRRORS: seq<nat> := [0x400_0000, 0x40_0000_0000]

  const BTRFS_MAGIC: seq<Byte> := [0x5f, 0x42, 0x48, 0x52, 0x66, 0x53, 0x5f, 0x4d]

  predicate Checksummed(crc: Crc, s: seq<Byte>)
    requires |s| == SUPER
  {
    crc(s[32..]) == U32(s, 0)
  }

  function Generation(s: seq<Byte>): nat
    requires |s| == SUPER
  {
    U64(s, 0x48)
  }

  function RootOk(s: seq<Byte>, p: nat): Result<()>
    requires p + 8 <= |s|
  {
    Need(U64(s, p) != 0 && U64(s, p) % 4096 == 0, FsInvalid)
  }

  /** `btrfs_at`: the policy for one superblock read from `physical`. */
  function BtrfsAt(crc: Crc, s: seq<Byte>, length: u64, physical: nat): Result<()> {
    if |s| != SUPER then Err(FsInvalid)
    else
      var _ :- Need(s[0x40..0x48] == BTRFS_MAGIC, FsTypeMismatch);
      var _ :- Need(U16(s, 0xc4) == 0, FsUnsupportedFeature);
      var _ :- Need(Checksummed(crc, s) && Zero(s[4..32]), FsInvalid);
      var _ :- Need(U64(s, 0x30) == physical && 0 < U64(s, 0x70) <= length && U64(s, 0x78) <= U64(s, 0x70), FsInvalid);
      BtrfsContent(s)
  }

  /** The part of the policy that looks neither at the checksum nor at the address. */
  function BtrfsContent(s: seq<Byte>): Result<()>
    requires |s| == SUPER
  {
    var _ :- Need(U64(s, 0x88) == 1, FsUnsupportedFeature);
    var _ :- Need(U64(s, 0x60) == 0, FsRecoveryRequired);
    var flags := U64(s, 0x38);
    var _ :- Need(And(flags, 4) == 0, FsRecoveryRequired);
    var _ :- Need(Beyond(flags, 1, U64_LIMIT) == 0, FsUnsupportedFeature);
    var allowed := 1 + 2 + 8 + 16 + 32 + 64 + 256 + 512;
    var _ :- Need(U64(s, 0xac) == 0 && U64(s, 0xb4) == 0
      && Beyond(U64(s, 0xbc), allowed, U64_LIMIT) == 0, FsUnsupportedFeature);
    var _ :- Need(U32(s, 0x90) == 4096 && U32(s, 0x94) in {4096, 8192, 16384, 32768, 65536}, FsUnsupportedFeature);
    var _ :- RootOk(s, 0x50);
    var _ :- RootOk(s, 0x58);
    Need(U32(s, 0xa0) <= 2048 && U8(s, 0xc6) <= 8 && U8(s, 0xc7) <= 8 && U8(s, 0xc8) <= 8, FsInvalid)
  }

  /** Equal but for the checksum and the superblock's own address. */
  predicate SameCommit(a: seq<Byte>, b: seq<Byte>)
    requires |a| == |b| == SUPER
  {
    a[32..48] == b[32..48] && a[56..] == b[56..]
  }

  function Super(p: seq<Byte>, at: nat): (s: seq<Byte>)
    requires at + SUPER <= |p|
    ensures |s| == SUPER
  {
    p[at..at + SUPER]
  }

  /** The mirrors from number `k` on, against the primary; the first one out of range ends the loop. */
  function MirrorsFrom(crc: Crc, p: seq<Byte>, k: nat): Result<()>
    requires |p| < U64_LIMIT && k <= |MIRRORS| && PRIMARY + SUPER <= |p|
    decreases |MIRRORS| - k
  {
    if k == |MIRRORS| || MIRRORS[k] + SUPER > |p| then Ok(())
    else
      var mirror := Super(p, MIRRORS[k]);
      var _ :- BtrfsAt(crc, mirror, |p|, MIRRORS[k]);
      var _ :- Need(SameCommit(Super(p, PRIMARY), mirror), FsRecoveryRequired);
      MirrorsFrom(crc, p, k + 1)
  }

  /** `check` on the plain bytes of a volume. */
  function Check(crc: Crc, p: seq<Byte>, fs: Filesystem): Result<()>
    requires |p| < U64_LIMIT
  {
    match fs
    case Ext4 =>
      if 1024 + 1024 > |p| then Err(InvalidRange) else Ext4Policy(crc, p[1024..2048], |p|)
    case Btrfs =>
      if PRIMARY + SUPER > |p| then Err(InvalidRange)
      else
        var _ :- BtrfsAt(crc, Super(p, PRIMARY), |p|, PRIMARY);
        MirrorsFrom(crc, p, 0)
  }

  // ---- what the mirror gate means ----

  predicate Candidate(at: nat) {
    at == PRIMARY || at in MIRRORS
  }

  /** A superblock some consumer of the volume may take: in range, with magic and checksum. */
  predicate Usable(crc: Crc, p: seq<Byte>, at: nat) {
    && Candidate(at) && at + SUPER <= |p|
    && Super(p, at)[0x40..0x48] == BTRFS_MAGIC && Checksummed(crc, Super(p, at))
  }

  /** The consumer's choice: no usable superblock is newer. */
  ghost predicate Newest(crc: Crc, p: seq<Byte>, at: nat) {
    && Usable(crc, p, at)
    && forall other: nat :: Usable(crc, p, other) ==> Generation(Super(p, other)) <= Generation(Super(p, at))
  }

  /** Accepted are exactly the volumes all of whose in-range superblocks meet the policy and agree. */
  lemma MirrorGate(crc: Crc, p: seq<Byte>)
    requires |p| < U64_LIMIT
    ensures Check(crc, p, Btrfs).Ok? <==>
      && PRIMARY + SUPER <= |p|
      && forall at: nat :: Candidate(at) && at + SUPER <= |p| ==>
           BtrfsAt(crc, Super(p, at), |p|, at).Ok? && SameCommit(Super(p, PRIMARY), Super(p, at))
  {
    hide BtrfsAt, SameCommit;
    assert MIRRORS[0] == 0x400_0000 && MIRRORS[1] == 0x40_0000_0000;
    if PRIMARY + SUPER <= |p| {
      SameAsItself(Super(p, PRIMARY));
      assert forall at: nat :: Candidate(at) <==> at == PRIMARY || at == MIRRORS[0] || at == MIRRORS[1];
      assert MirrorsFrom(crc, p, 2).Ok?;
    }
  }

  lemma SameAsItself(s: seq<Byte>)
    requires |s| == SUPER
    ensures SameCommit(s, s)
  {
  }

  /**
   Whichever superblock a consumer takes as the newest of an accepted volume, it is the
   commit of the primary, byte for byte outside checksum and address, and it meets the
   whole policy at its own address.
   */
  lemma ConsumerSeesOneCommit(crc: Crc, p: seq<Byte>, at: nat)
    requires |p| < U64_LIMIT && Check(crc, p, Btrfs).Ok? && Newest(crc, p, at)
    ensures SameCommit(Super(p, PRIMARY), Super(p, at)) && BtrfsAt(crc, Super(p, at), |p|, at).Ok?
    ensures Newest(crc, p, PRIMARY) && Generation(Super(p, PRIMARY)) == Generation(Super(p, at))
    ensures BtrfsContent(Super(p, PRIMARY)).Ok? && BtrfsContent(Super(p, at)).Ok?
  {
    hide Check, BtrfsContent, Newest, U16, U32, U64;
    MirrorGate(crc, p);
    assert Usable(crc, p, at) by { NewestIsUsable(crc, p, at); }
    AllSameGeneration(crc, p);
    assert Usable(crc, p, PRIMARY);
    PrimaryIsNewest(crc, p);
  }

  lemma NewestIsUsable(crc: Crc, p: seq<Byte>, at: nat)
    requires Newest(crc, p, at)
    ensures Usable(crc, p, at)
  {
  }

  lemma PrimaryIsNewest(crc: Crc, p: seq<Byte>)
    requires Usable(crc, p, PRIMARY)
    requires forall at: nat ::
      Candidate(at) && at + SUPER <= |p| ==> Generation(Super(p, at)) == Generation(Super(p, PRIMARY))
    ensures Newest(crc, p, PRIMARY)
  {
  }

  lemma AllSameGeneration(crc: Crc, p: seq<Byte>)
    requires PRIMARY + SUPER <= |p|
    requires forall at: nat :: Candidate(at) && at + SUPER <= |p| ==> SameCommit(Super(p, PRIMARY), Super(p, at))
    ensures forall at: nat ::
      Candidate(at) && at + SUPER <= |p| ==> Generation(Super(p, at)) == Generation(Super(p, PRIMARY))
  {
    hide U64;
    forall at: nat | Candidate(at) && at + SUPER <= |p|
      ensures Generation(Super(p, at)) == Generation(Super(p, PRIMARY))
    {
      SameField(Super(p, PRIMARY), Super(p, at), 0x48);
    }
  }

  lemma SameField(a: seq<Byte>, b: seq<Byte>, at: nat)
    requires |a| == |b| == SUPER && SameCommit(a, b) && 56 <= at <= SUPER - 8
    ensures U64(a, at) == U64(b, at)
  {
    assert a[at..at + 8] == a[56..][at - 56..at - 48] && b[at..at + 8] == b[56..][at - 56..at - 48];
  }

  // ---- ext4 ----

  /** Everything `ext4` asks of the features, before sizes. */
  function Ext4Features(crc: Crc, s: seq<Byte>): Result<()>
    requires |s| == 1024
  {
    var _ :- Need(U16(s, 0x38) == 0xef53, FsTypeMismatch);
    var _ :- Need(U8(s, 0x175) == 1, FsUnsupportedFeature);
    var _ :- Need(0xffff_ffff - crc(s[..0x3fc]) == U32(s, 0x3fc), FsInvalid);
    var compat, incompat, ro := U32(s, 0x5c), U32(s, 0x60), U32(s, 0x64);
    var _ :- Need(U16(s, 0x3a) == 1 && And(incompat, 0x4) == 0 && And(ro, 0x1_0000) == 0 && U32(s, 0xe8) == 0
      && U32(s, 0x280) == 0, FsRecoveryRequired);
    var _ :- Need(
      && Beyond(compat, 0x3c, 0x1_0000_0000) == 0
      && Beyond(incompat, 0x22c2, 0x1_0000_0000) == 0
      && Beyond(ro, 0x46b, 0x1_0000_0000) == 0
      && And(compat, 4) != 0 && And(incompat, 0x42) == 0x42 && And(ro, 0x400) != 0, FsUnsupportedFeature);
    var _ :- Need(U32(s, 0x4c) == 1 && U16(s, 0x58) == 256 && U32(s, 0x18) == 2, FsUnsupportedFeature);
    var _ :- Need(U32(s, 0x1c) == 2 && U32(s, 0x14) == 0, FsInvalid);
    Need(U32(s, 0xe0) != 0 && U32(s, 0xe4) == 0 && Zero(s[0xd0..0xe0]), FsUnsupportedFeature)
  }

  predicate Has64(s: seq<Byte>)
    requires |s| == 1024
  {
    And(U32(s, 0x60), 0x80) != 0
  }

  /** A 32-bit count at `low`, joined with its high half where the image has one. */
  function Wide(s: seq<Byte>, low: nat, high: nat): nat
    requires |s| == 1024 && low + 4 <= 1024 && high + 4 <= 1024
  {
    hide U32, Has64, Pow2, Or;
    Or(U32(s, low), if Has64(s) then U32(s, high) * Pow2(32) else 0)
  }

  function DivCeil(a: nat, b: nat): nat
    requires b > 0
  {
    if a % b == 0 then a / b else a / b + 1
  }

  predicate WideFields(s: seq<Byte>)
    requires |s| == 1024
  {
    if Has64(s) then U16(s, 0xfe) == 64 else U32(s, 0x150) == U32(s, 0x154) == U32(s, 0x158) == 0
  }

  datatype Layout = Layout(blocks: nat, bpg: nat, clusters: nat, ipg: nat, inodes: nat, firstInode: nat,
      journal: nat, freeInodes: nat, free: nat, reserved: nat)

  function LayoutOf(s: seq<Byte>): (y: Layout)
    requires |s| == 1024
    ensures y.inodes < 0x1_0000_0000
  {
    Layout(Wide(s, 4, 0x150), U32(s, 0x20), U32(s, 0x24), U32(s, 0x28), U32(s, 0), U32(s, 0x54), U32(s, 0xe0),
      U32(s, 0x10), Wide(s, 0xc, 0x158), Wide(s, 8, 0x154))
  }

  /** The sizes `ext4` compares, with its overflow checks. */
  predicate SizesOk(y: Layout, length: u64) {
    && y.blocks * 4096 < U64_LIMIT
    && y.blocks * 4096 <= length && y.blocks != 0 && y.bpg != 0 && y.bpg <= 32768 && y.clusters == y.bpg
    && y.ipg != 0 && y.ipg <= 32768 && y.ipg % 16 == 0
    && DivCeil(y.ipg * 256, 4096) + 2 <= y.bpg
    && y.inodes != 0 && DivCeil(y.blocks, y.bpg) * y.ipg < U64_LIMIT && y.inodes == DivCeil(y.blocks, y.bpg) * y.ipg
    && y.journal <= y.inodes && 11 <= y.firstInode <= y.inodes
    && y.freeInodes <= y.inodes && y.free <= y.blocks && y.reserved <= y.blocks
  }

  /** `ext4`. */
  function Ext4Policy(crc: Crc, s: seq<Byte>, length: u64): Result<()> {
    if |s| != 1024 then Err(FsInvalid)
    else
      var _ :- Ext4Features(crc, s);
      Need(WideFields(s) && SizesOk(LayoutOf(s), length), FsInvalid)
  }

  /** A count read as the number it stands for. */
  function Count(s: seq<Byte>, low: nat, high: nat): nat
    requires |s| == 1024 && low + 4 <= 1024 && high + 4 <= 1024
  {
    U32(s, low) + if Has64(s) then U32(s, high) * 0x1_0000_0000 else 0
  }

  lemma WideIsCount(s: seq<Byte>, low: nat, high: nat)
    requires |s| == 1024 && low + 4 <= 1024 && high + 4 <= 1024
    ensures Wide(s, low, high) == Count(s, low, high)
  {
    Word(32);
    if Has64(s) {
      JoinIsSum(U32(s, low), U32(s, high), 32);
    }
  }

  /** The geometry over unbounded numbers; the last of the groups may be partly used. */
  ghost predicate Geometry(y: Layout, groups: nat, length: nat) {
    && 0 < y.blocks && y.blocks * 4096 <= length
    && 0 < y.bpg <= 32768 && y.clusters == y.bpg
    && 0 < y.ipg <= 32768 && y.ipg % 16 == 0 && y.ipg / 16 + 2 <= y.bpg
    && (groups - 1) * y.bpg < y.blocks <= groups * y.bpg && y.inodes == groups * y.ipg
    && 11 <= y.firstInode <= y.inodes && y.journal <= y.inodes && y.freeInodes <= y.inodes
    && y.free <= y.blocks && y.reserved <= y.blocks
  }

  /** The 64-bit checks decide the geometry over unbounded numbers: no product wraps unnoticed. */
  lemma SizesAreGeometry(y: Layout, length: u64)
    requires y.inodes < 0x1_0000_0000
    ensures SizesOk(y, length) <==> exists groups: nat :: Geometry(y, groups, length)
  {
    if y.ipg % 16 == 0 {
      assert DivCeil(y.ipg * 256, 4096) == y.ipg / 16;
    }
    if y.bpg > 0 && y.blocks > 0 {
      CeilIs(y.blocks, y.bpg);
      assert SizesOk(y, length) ==> Geometry(y, DivCeil(y.blocks, y.bpg), length);
    }
  }

  /** The layout with every joined count read as the number it stands for. */
  function CountsOf(s: seq<Byte>): Layout
    requires |s| == 1024
  {
    Layout(Count(s, 4, 0x150), U32(s, 0x20), U32(s, 0x24), U32(s, 0x28), U32(s, 0), U32(s, 0x54), U32(s, 0xe0),
      U32(s, 0x10), Count(s, 0xc, 0x158), Count(s, 8, 0x154))
  }

  /** `ext4` accepts exactly the supported features with a sound geometry over unbounded numbers. */
  lemma Ext4IsGeometry(crc: Crc, s: seq<Byte>, length: u64)
    requires |s| == 1024
    ensures Ext4Policy(crc, s, length).Ok? <==>
      Ext4Features(crc, s).Ok? && WideFields(s) && exists groups: nat :: Geometry(CountsOf(s), groups, length)
  {
    hide Ext4Features, Wide, Count, U32, SizesOk, Geometry, WideFields;
    WideIsCount(s, 4, 0x150);
    WideIsCount(s, 0xc, 0x158);
    WideIsCount(s, 8, 0x154);
    assert LayoutOf(s) == CountsOf(s);
    assert Ext4Policy(crc, s, length).Ok? <==>
      Ext4Features(crc, s).Ok? && WideFields(s) && SizesOk(LayoutOf(s), length);
    SizesAreGeometry(LayoutOf(s), length);
  }

  // ---- what the ext4 geometry means ----

  /** Inode numbers start at 1 and run through the groups. */
  function GroupOf(ipg: nat, inode: nat): nat
    requires ipg > 0 && inode > 0
  {
    (inode - 1) / ipg
  }

  function SlotOf(ipg: nat, inode: nat): nat
    requires ipg > 0 && inode > 0
  {
    (inode - 1) % ipg
  }

  function InodeAt(ipg: nat, group: nat, slot: nat): nat { group * ipg + slot + 1 }

  /** Every inode number has its place in an existing group. */
  lemma InodeHasPlace(y: Layout, groups: nat, length: u64, inode: nat)
    requires Geometry(y, groups, length) && 1 <= inode <= y.inodes
    ensures GroupOf(y.ipg, inode) < groups && SlotOf(y.ipg, inode) < y.ipg
    ensures inode == InodeAt(y.ipg, GroupOf(y.ipg, inode), SlotOf(y.ipg, inode))
  {
    PlaceOf(inode - 1, y.ipg, groups);
  }

  /** Every place of every group belongs to exactly the inode that maps back to it. */
  lemma PlaceHasInode(y: Layout, groups: nat, length: u64, group: nat, slot: nat)
    requires Geometry(y, groups, length) && group < groups && slot < y.ipg
    ensures 1 <= InodeAt(y.ipg, group, slot) <= y.inodes
    ensures GroupOf(y.ipg, InodeAt(y.ipg, group, slot)) == group && SlotOf(y.ipg, InodeAt(y.ipg, group, slot)) == slot
  {
    NumberOf(group, slot, y.ipg, groups);
  }

  lemma PlaceOf(n: nat, ipg: nat, groups: nat)
    requires ipg > 0 && n < groups * ipg
    ensures n / ipg < groups && n == n / ipg * ipg + n % ipg
  {
    if groups <= n / ipg {
      MulLe(groups, n / ipg, ipg);
    }
  }

  lemma NumberOf(g: nat, k: nat, ipg: nat, groups: nat)
    requires g < groups && k < ipg
    ensures g * ipg + k < groups * ipg && (g * ipg + k) / ipg == g && (g * ipg + k) % ipg == k
  {
    MulLe(g + 1, groups, ipg);
    assert (g + 1) * ipg == g * ipg + ipg;
    var n := g * ipg + k;
    var q := n / ipg;
    assert (q + 1) * ipg == q * ipg + ipg;
    if q < g {
      MulLe(q + 1, g, ipg);
    } else if q > g {
      MulLe(g + 1, q, ipg);
    }
  }

  /** How many groups have all their blocks. */
  function FullGroups(y: Layout): nat
    requires y.bpg > 0
  {
    y.blocks / y.bpg
  }

  /** The blocks of one group's bitmaps and inode table. */
  function Overhead(y: Layout): nat { y.ipg / 16 + 2 }

  /**
   The inode tables and bitmaps of all full groups fit in the blocks there are, those of
   every prefix of the full groups fit in front of the next group, and there is at most
   one group that is not full. All of it lies in the volume.
   */
  lemma TablesFit(y: Layout, groups: nat, length: u64)
    requires Geometry(y, groups, length)
    ensures groups - 1 <= FullGroups(y) <= groups
    ensures forall g: nat :: g <= FullGroups(y) ==> g * Overhead(y) <= g * y.bpg <= y.blocks
    ensures y.ipg * 256 == y.ipg / 16 * 4096
    ensures FullGroups(y) * Overhead(y) * 4096 <= y.blocks * 4096 <= length
  {
    var full := FullGroups(y);
    assert y.blocks == full * y.bpg + y.blocks % y.bpg;
    assert (groups - 1) * y.bpg == groups * y.bpg - y.bpg;
    assert (groups + 1) * y.bpg == groups * y.bpg + y.bpg;
    assert (full + 1) * y.bpg == full * y.bpg + y.bpg;
    if groups < full {
      MulLe(groups + 1, full, y.bpg);
    }
    if full < groups - 1 {
      MulLe(full + 1, groups - 1, y.bpg);
    }
    forall g: nat | g <= full ensures g * Overhead(y) <= g * y.bpg <= y.blocks {
      MulLe(Overhead(y), y.bpg, g);
      MulLe(g, full, y.bpg);
      assert Overhead(y) * g == g * Overhead(y) && y.bpg * g == g * y.bpg;
    }
  }

  // ---- what it leaves open: the last group ----

  /** How many blocks of the volume lie in a group. */
  function GroupBlocks(y: Layout, group: nat): int {
    if (group + 1) * y.bpg <= y.blocks then y.bpg else y.blocks - group * y.bpg
  }

  lemma RoomInGroups(y: Layout, groups: nat, length: u64)
    requires Geometry(y, groups, length)
    ensures y.blocks % y.bpg == 0 || Overhead(y) <= y.blocks % y.bpg <==>
      forall g: nat :: g < groups ==> Overhead(y) <= GroupBlocks(y, g)
  {
    var r := y.blocks % y.bpg;
    assert y.blocks == y.blocks / y.bpg * y.bpg + r;
    TablesFit(y, groups, length);
    forall g: nat | g < groups ensures GroupBlocks(y, g) == if g < y.blocks / y.bpg then y.bpg else r {
      assert (g + 1) * y.bpg == g * y.bpg + y.bpg;
      if g < y.blocks / y.bpg {
        MulLe(g + 1, y.blocks / y.bpg, y.bpg);
      } else {
        MulLe(y.blocks / y.bpg, g, y.bpg);
      }
    }
    if r != 0 {
      assert groups - 1 == y.blocks / y.bpg;
      assert GroupBlocks(y, groups - 1) == r;
    }
  }

  /** How many groups the blocks of an accepted superblock make up. */
  function GroupCount(y: Layout): nat {
    if y.bpg == 0 then 0 else DivCeil(y.blocks, y.bpg)
  }

  /**
   In an accepted filesystem every group has room for its own tables exactly when the blocks
   divide evenly into groups or the remainder holds one set of tables.
   */
  lemma EveryGroupHasRoom(crc: Crc, s: seq<Byte>, length: u64)
    requires |s| == 1024 && Ext4Policy(crc, s, length).Ok?
    ensures var y := CountsOf(s);
      && y.bpg > 0 && y.inodes == GroupCount(y) * y.ipg
      && (y.blocks % y.bpg == 0 || Overhead(y) <= y.blocks % y.bpg <==>
            forall g: nat :: g < GroupCount(y) ==> Overhead(y) <= GroupBlocks(y, g))
  {
    hide Ext4Policy, Count, U32;
    Ext4IsGeometry(crc, s, length);
    var y := CountsOf(s);
    var groups: nat :| Geometry(y, groups, length);
    CeilIs(y.blocks, y.bpg);
    RoomInGroups(y, groups, length);
  }

  lemma MulLe(a: nat, b: nat, k: nat)
    requires a <= b
    ensures a * k <= b * k
  {
    assert b * k == a * k + (b - a) * k;
  }

  /** Rounding up is the only way to cover `a` without a wholly unused part. */
  lemma CeilIs(a: nat, b: nat)
    requires b > 0 && a > 0
    ensures forall g: nat :: (g - 1) * b < a <= g * b <==> g == DivCeil(a, b)
  {
    var q, c := a / b, DivCeil(a, b);
    assert a == q * b + a % b;
    assert c == q || c == q + 1;
    assert (q + 1) * b == q * b + b && (c - 1) * b == c * b - b;
    forall g: nat ensures (g - 1) * b < a <= g * b <==> g == c {
      assert (g - 1) * b == g * b - b;
      if g < c {
        MulLe(g, c - 1, b);
      } else if g > c {
        MulLe(c, g - 1, b);
      }
    }
  }
}
