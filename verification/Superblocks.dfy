/** Concrete superblocks that the policies accept, under any checksum function. */
module Superblocks {
  import opened Basics
  import opened Bits
  import opened Probe

  // ---- bytes of a number ----

  function Value(b: Byte): nat { b as int }

  lemma Successor(b: Byte)
    requires b != 255
    ensures Value(b + 1) == Value(b) + 1
  {
  }

  /** Every number below 256 is the value of a byte. */
  lemma {:induction false} ByteExists(n: nat)
    requires n < 256
    ensures exists b: Byte :: Value(b) == n
  {
    if n == 0 {
      assert Value(0) == 0;
    } else {
      ByteExists(n - 1);
      var b: Byte :| Value(b) == n - 1;
      Successor(b);
    }
  }

  ghost function ByteOf(n: nat): (b: Byte)
    requires n < 256
    ensures b as int == n
  {
    ByteExists(n);
    var b: Byte :| Value(b) == n;
    b
  }

  /** The four bytes of a word, the lowest first. */
  ghost function Word4(n: u32): (b: seq<Byte>)
    ensures |b| == 4
    ensures n == WordOf(b[0], b[1], b[2], b[3])
  {
    var high := n / 256;
    var higher := high / 256;
    assert n == n % 256 + 256 * high && high == high % 256 + 256 * higher && higher / 256 < 256;
    [ByteOf(n % 256), ByteOf(high % 256), ByteOf(higher % 256), ByteOf(higher / 256)]
  }

  function WordOf(a: Byte, b: Byte, c: Byte, d: Byte): nat {
    a as int + 256 * (b as int + 256 * (c as int + 256 * d as int))
  }

  // ---- fields of a block ----

  lemma LeTwo(a: Byte, b: Byte, rest: seq<Byte>)
    ensures Le([a, b] + rest) == a as int + 256 * (b as int + 256 * Le(rest))
  {
    var s := Octets([a, b] + rest);
    var t := s[1..];
    assert s[0] == a as int && t[0] == b as int && t[1..] == Octets(rest);
    assert FromLittleEndian(t) == t[0] + 256 * FromLittleEndian(t[1..]);
  }

  lemma {:induction false} LeZero(b: seq<Byte>)
    requires Zero(b)
    ensures Le(b) == 0
  {
    if b != [] {
      assert Octets(b)[1..] == Octets(b[1..]);
      LeZero(b[1..]);
    }
  }

  /** Fields from their bytes. */
  lemma FieldBytes(s: seq<Byte>, p: nat)
    requires p + 4 <= |s|
    ensures U16(s, p) == s[p] as int + 256 * s[p + 1] as int
    ensures U32(s, p) == WordOf(s[p], s[p + 1], s[p + 2], s[p + 3])
  {
    hide Le, WordOf;
    assert s[p..p + 2] == [s[p], s[p + 1]];
    assert s[p..p + 4] == [s[p], s[p + 1], s[p + 2], s[p + 3]];
    LeOfTwo(s[p], s[p + 1]);
    LeOfFour(s[p], s[p + 1], s[p + 2], s[p + 3]);
  }

  lemma LeOfTwo(a: Byte, b: Byte)
    ensures Le([a, b]) == a as int + 256 * b as int
  {
    LeTwo(a, b, []);
    assert [a, b] + [] == [a, b];
  }

  lemma LeOfFour(a: Byte, b: Byte, c: Byte, d: Byte)
    ensures Le([a, b, c, d]) == WordOf(a, b, c, d)
  {
    hide Le;
    LeOfTwo(c, d);
    LeTwo(a, b, [c, d]);
    assert [a, b] + [c, d] == [a, b, c, d];
  }

  lemma LongField(s: seq<Byte>, p: nat)
    requires p + 8 <= |s| && Zero(s[p + 4..p + 8])
    ensures U64(s, p) == U32(s, p)
  {
    hide U32;
    var high := s[p + 4..p + 8];
    FieldBytes(s, p);
    LeZero(high);
    LeTwo(s[p + 2], s[p + 3], high);
    LeTwo(s[p], s[p + 1], [s[p + 2], s[p + 3]] + high);
    assert s[p..p + 8] == [s[p], s[p + 1]] + ([s[p + 2], s[p + 3]] + high);
  }

  // ---- ext4 ----

  /** One block in one group of three, with sixteen inodes. */
  function TinyByte(i: nat): Byte {
    match i
    case 0x0 => 0x10 case 0x4 => 0x1 case 0x18 => 0x2 case 0x1c => 0x2 case 0x20 => 0x3 case 0x24 => 0x3
    case 0x28 => 0x10 case 0x38 => 0x53 case 0x39 => 0xef case 0x3a => 0x1 case 0x4c => 0x1 case 0x54 => 0xb
    case 0x59 => 0x1 case 0x5c => 0x4 case 0x60 => 0x42 case 0x65 => 0x4 case 0xe0 => 0x8 case 0x175 => 0x1

    case _ => 0
  }

  function TinyBody(): (b: seq<Byte>)
    ensures |b| == 0x3fc
  {
    seq(0x3fc, i requires 0 <= i => TinyByte(i))
  }

  /** The body and the complement of its checksum. */
  ghost function Tiny(crc: Crc): (s: seq<Byte>)
    ensures |s| == 1024
  {
    TinyBody() + Word4(0xffff_ffff - crc(TinyBody()))
  }

  lemma TinySum(crc: Crc)
    ensures 0xffff_ffff - crc(Tiny(crc)[..0x3fc]) == U32(Tiny(crc), 0x3fc)
  {
    hide TinyBody, U16, U32;
    var s, w := Tiny(crc), Word4(0xffff_ffff - crc(TinyBody()));
    assert s[..0x3fc] == TinyBody();
    FieldBytes(s, 0x3fc);
    assert s[0x3fc] == w[0] && s[0x3fd] == w[1] && s[0x3fe] == w[2] && s[0x3ff] == w[3];
  }

  lemma TinyHalf(crc: Crc, p: nat, n: nat)
    requires p + 4 <= 0x3fc && n == TinyByte(p) as int + 256 * TinyByte(p + 1) as int
    ensures U16(Tiny(crc), p) == n
  {
    hide TinyByte, U32;
    FieldBytes(Tiny(crc), p);
  }

  lemma TinyWord(crc: Crc, p: nat, n: nat)
    requires p + 4 <= 0x3fc
    requires n == WordOf(TinyByte(p), TinyByte(p + 1), TinyByte(p + 2), TinyByte(p + 3))
    ensures U32(Tiny(crc), p) == n
  {
    hide TinyByte, U16;
    FieldBytes(Tiny(crc), p);
  }

  lemma TinyFlags(crc: Crc)
    ensures U16(Tiny(crc), 0x38) == 0xef53 && U16(Tiny(crc), 0x3a) == 1 && U16(Tiny(crc), 0x58) == 256
    ensures U32(Tiny(crc), 0x5c) == 4 && U32(Tiny(crc), 0x60) == 0x42 && U32(Tiny(crc), 0x64) == 0x400
  {
    hide U16, U32, Tiny;
    TinyHalf(crc, 0x38, 0xef53);
    TinyHalf(crc, 0x3a, 0x1);
    TinyHalf(crc, 0x58, 0x100);
    TinyWord(crc, 0x5c, 0x4);
    TinyWord(crc, 0x60, 0x42);
    TinyWord(crc, 0x64, 0x400);
  }

  lemma TinyPlain(crc: Crc)
    ensures var s := Tiny(crc);
      && U32(s, 0xe8) == U32(s, 0x280) == U32(s, 0x14) == U32(s, 0xe4) == 0
      && U32(s, 0x150) == U32(s, 0x154) == U32(s, 0x158) == 0
      && U32(s, 0x4c) == 1 && U32(s, 0x18) == U32(s, 0x1c) == 2 && U32(s, 0xe0) == 8
  {
    hide U16, U32, Tiny;
    TinyWord(crc, 0xe8, 0x0);
    TinyWord(crc, 0x280, 0x0);
    TinyWord(crc, 0x4c, 0x1);
    TinyWord(crc, 0x18, 0x2);
    TinyWord(crc, 0x1c, 0x2);
    TinyWord(crc, 0x14, 0x0);
    TinyWord(crc, 0xe0, 0x8);
    TinyWord(crc, 0xe4, 0x0);
    TinyWord(crc, 0x150, 0x0);
    TinyWord(crc, 0x154, 0x0);
    TinyWord(crc, 0x158, 0x0);
  }

  lemma TinyRest(crc: Crc)
    ensures U8(Tiny(crc), 0x175) == 1 && Zero(Tiny(crc)[0xd0..0xe0])
  {
  }

  lemma TinyFeatures(crc: Crc)
    ensures Ext4Features(crc, Tiny(crc)).Ok? && WideFields(Tiny(crc)) && !Has64(Tiny(crc))
  {
    hide U8, U16, U32, Tiny, And, Zero;
    TinyFlags(crc);
    TinyPlain(crc);
    TinyRest(crc);
    TinySum(crc);
    TinyBits();
  }

  lemma TinyBits()
    ensures And(0x42, 4) == 0 && And(0x400, 0x1_0000) == 0 && And(0x42, 0x80) == 0
    ensures Beyond(4, 0x3c, 0x1_0000_0000) == 0
    ensures Beyond(0x42, 0x22c2, 0x1_0000_0000) == 0
    ensures Beyond(0x400, 0x46b, 0x1_0000_0000) == 0
    ensures And(4, 4) == 4 && And(0x42, 0x42) == 0x42 && And(0x400, 0x400) == 0x400
  {
    hide And;
    And66(4);
    And1024(0x1_0000);
    And66(0x80);
    AndFour(0xffff_ffff - 0x3c);
    And66(0xffff_ffff - 0x22c2);
    And1024(0xffff_ffff - 0x46b);
    AndFour(4);
    And66(0x42);
    And1024(0x400);
  }

  lemma TinyLayout(crc: Crc)
    ensures CountsOf(Tiny(crc)) == Layout(1, 3, 3, 16, 16, 11, 8, 0, 0, 0)
  {
    hide U16, U32, Tiny, Has64, And, Ext4Features, WideFields;
    TinyFeatures(crc);
    TinyWord(crc, 0x4, 0x1);
    TinyWord(crc, 0x20, 0x3);
    TinyWord(crc, 0x24, 0x3);
    TinyWord(crc, 0x28, 0x10);
    TinyWord(crc, 0x0, 0x10);
    TinyWord(crc, 0x54, 0xb);
    TinyWord(crc, 0xe0, 0x8);
    TinyWord(crc, 0x10, 0x0);
    TinyWord(crc, 0xc, 0x0);
    TinyWord(crc, 0x8, 0x0);
  }

  /**
   The last group may have no room for its own tables: under any checksum function this
   superblock is accepted in any volume of a block or more, yet its only group has one block and needs three.
   */
  lemma LastGroupMayNotFit(crc: Crc, length: u64)
    requires length >= 4096
    ensures Ext4Policy(crc, Tiny(crc), length).Ok?
    ensures var y := CountsOf(Tiny(crc)); GroupCount(y) == 1 && GroupBlocks(y, 0) < Overhead(y)
  {
    hide Tiny, Ext4Features, Has64, WideFields, Ext4Policy, CountsOf;
    TinyFeatures(crc);
    TinyLayout(crc);
    Ext4IsGeometry(crc, Tiny(crc), length);
    assert Geometry(CountsOf(Tiny(crc)), 1, length);
  }

  // ---- Btrfs ----

  function SmallByte(i: nat): Byte {
    match i
    case 0x32 => 0x1 case 0x40 => 0x5f case 0x41 => 0x42 case 0x42 => 0x48 case 0x43 => 0x52 case 0x44 => 0x66
    case 0x45 => 0x53 case 0x46 => 0x5f case 0x47 => 0x4d case 0x51 => 0x10 case 0x59 => 0x10 case 0x71 => 0x10
    case 0x88 => 0x1 case 0x91 => 0x10 case 0x95 => 0x10
    case _ => 0
  }

  function SmallTail(): (b: seq<Byte>)
    ensures |b| == SUPER - 4
  {
    seq(SUPER - 4, i requires 0 <= i => SmallByte(i + 4))
  }

  /** The checksum of all but the first 32 bytes, and the rest. */
  ghost function Small(crc: Crc): (s: seq<Byte>)
    ensures |s| == SUPER
  {
    Word4(crc(SmallTail()[28..])) + SmallTail()
  }

  lemma SmallSum(crc: Crc)
    ensures Checksummed(crc, Small(crc))
  {
    hide SmallTail, U16, U32;
    var s, w := Small(crc), Word4(crc(SmallTail()[28..]));
    assert s[32..] == SmallTail()[28..];
    FieldBytes(s, 0);
    assert s[0] == w[0] && s[1] == w[1] && s[2] == w[2] && s[3] == w[3];
  }

  lemma SmallWord(crc: Crc, p: nat, n: nat)
    requires 4 <= p && p + 4 <= SUPER
    requires n == WordOf(SmallByte(p), SmallByte(p + 1), SmallByte(p + 2), SmallByte(p + 3))
    ensures U32(Small(crc), p) == n
  {
    hide SmallByte, U16;
    FieldBytes(Small(crc), p);
  }

  lemma SmallLong(crc: Crc, p: nat, n: nat)
    requires 4 <= p && p + 8 <= SUPER && forall i :: p + 4 <= i < p + 8 ==> SmallByte(i) == 0
    requires n == WordOf(SmallByte(p), SmallByte(p + 1), SmallByte(p + 2), SmallByte(p + 3))
    ensures U64(Small(crc), p) == n
  {
    hide SmallByte, U16, U32, U64;
    LongField(Small(crc), p);
    SmallWord(crc, p, n);
  }

  lemma SmallFields(crc: Crc)
    ensures var s := Small(crc);
      && U64(s, 0x30) == PRIMARY && U64(s, 0x70) == 4096 && U64(s, 0x78) == 0 && U64(s, 0x88) == 1 && U64(s, 0x60) == 0
      && U64(s, 0x38) == U64(s, 0xac) == U64(s, 0xb4) == U64(s, 0xbc) == 0 && U64(s, 0x50) == U64(s, 0x58) == 4096
      && U32(s, 0xa0) == 0 && U32(s, 0x90) == U32(s, 0x94) == 4096
  {
    hide U32, U64, Small;
    SmallLong(crc, 0x30, 0x10000);
    SmallLong(crc, 0x70, 0x1000);
    SmallLong(crc, 0x78, 0x0);
    SmallLong(crc, 0x88, 0x1);
    SmallLong(crc, 0x60, 0x0);
    SmallLong(crc, 0x38, 0x0);
    SmallLong(crc, 0xac, 0x0);
    SmallLong(crc, 0xb4, 0x0);
    SmallLong(crc, 0xbc, 0x0);
    SmallLong(crc, 0x50, 0x1000);
    SmallLong(crc, 0x58, 0x1000);
    SmallWord(crc, 0x90, 0x1000);
    SmallWord(crc, 0x94, 0x1000);
    SmallWord(crc, 0xa0, 0x0);
  }

  lemma SmallRest(crc: Crc)
    ensures var s := Small(crc);
      && s[0x40..0x48] == BTRFS_MAGIC && Zero(s[4..32]) && U16(s, 0xc4) == 0
      && U8(s, 0xc6) == U8(s, 0xc7) == U8(s, 0xc8) == 0
  {
    hide U32;
    FieldBytes(Small(crc), 0xc4);
  }

  lemma SmallIsGood(crc: Crc, length: u64)
    requires length >= 4096
    ensures BtrfsAt(crc, Small(crc), length, PRIMARY).Ok?
  {
    hide U8, U16, U32, U64, Zero, Small, Checksummed;
    SmallSum(crc);
    SmallFields(crc);
    SmallRest(crc);
  }

  /** A payload of one Btrfs superblock behind 64 KiB of zeros. */
  ghost function Payload(crc: Crc): (p: seq<Byte>)
    ensures |p| == PRIMARY + SUPER
  {
    seq(PRIMARY, _ => 0) + Small(crc)
  }

  lemma PayloadSuper(crc: Crc)
    ensures Super(Payload(crc), PRIMARY) == Small(crc)
  {
    hide Small;
  }

  /** Under any checksum function, an accepted Btrfs payload, whose primary is what a consumer takes. */
  lemma PayloadIsGood(crc: Crc)
    ensures Check(crc, Payload(crc), Btrfs).Ok? && Newest(crc, Payload(crc), PRIMARY)
  {
    hide BtrfsAt, Small, U64, U32, Payload, Checksummed;
    PayloadSuper(crc);
    SmallSum(crc);
    SmallIsGood(crc, |Payload(crc)|);
    SmallFields(crc);
    SmallRest(crc);
    assert forall at: nat :: Candidate(at) && at + SUPER <= PRIMARY + SUPER ==> at == PRIMARY;
  }
}
