/** What the policies of `src/probe.rs` admit, field by field and bit by bit. */
module Policies {
  import opened Basics
  import opened Bits
  import opened Probe

  lemma Powers()
    ensures Pow2(0) == 1 && Pow2(1) == 2 && Pow2(2) == 4 && Pow2(3) == 8 && Pow2(4) == 16 && Pow2(5) == 32
    ensures Pow2(6) == 64 && Pow2(7) == 128 && Pow2(8) == 256 && Pow2(9) == 512 && Pow2(10) == 1024 && Pow2(13) == 8192
  {
    assert Pow2(6) == 64 && Pow2(10) == 16 * Pow2(6) && Pow2(13) == 8 * Pow2(10);
  }

  // ---- Btrfs ----

  /** A Btrfs superblock read from `at` that the program mounts. */
  ghost predicate BtrfsPolicy(crc: Crc, s: seq<Byte>, length: nat, at: nat) {
    && |s| == 4096
    && s[0x40..0x48] == [0x5f, 0x42, 0x48, 0x52, 0x66, 0x53, 0x5f, 0x4d]
    && U16(s, 0xc4) == 0 && crc(s[32..]) == U32(s, 0) && (forall i :: 4 <= i < 32 ==> s[i] == 0)
    && U64(s, 0x30) == at && 0 < U64(s, 0x70) <= length && U64(s, 0x78) <= U64(s, 0x70)
    && U64(s, 0x88) == 1 && U64(s, 0x60) == 0
    && OnlyBits(U64(s, 0x38), {0}) && U64(s, 0xac) == 0 && U64(s, 0xb4) == 0
    && OnlyBits(U64(s, 0xbc), {0, 1, 3, 4, 5, 6, 8, 9})
    && U32(s, 0x90) == 4096 && U32(s, 0x94) in {4096, 8192, 16384, 32768, 65536}
    && U64(s, 0x50) != 0 && U64(s, 0x50) % 4096 == 0 && U64(s, 0x58) != 0 && U64(s, 0x58) % 4096 == 0
    && U32(s, 0xa0) <= 2048 && s[0xc6] as int <= 8 && s[0xc7] as int <= 8 && s[0xc8] as int <= 8
  }

  lemma FlagMask(n: u64)
    ensures And(n, 4) == 0 && Beyond(n, 1, U64_LIMIT) == 0 <==> OnlyBits(n, {0})
  {
    hide Pow2, And, Bit, Beyond;
    LongWord(64);
    Powers();
    NoMask();
    MaskMore(0, {}, 0);
    assert {} + {0} == {0};
    BeyondZero(n, 1, {0}, 64);
    if OnlyBits(n, {0}) {
      MaskMore(0, {}, 2);
      AndZero(n, 4);
      forall k: nat ensures !Common(n, 4, k) {
      }
    }
  }

  lemma IncompatMask(n: u64)
    ensures Beyond(n, 0x37b, U64_LIMIT) == 0 <==> OnlyBits(n, {0, 1, 3, 4, 5, 6, 8, 9})
  {
    hide Pow2, And, Bit, Beyond, IsMask, OnlyBits;
    LongWord(64);
    Powers();
    NoMask();
    MaskMore(0, {}, 0);
    MaskMore(1, {} + {0}, 1);
    MaskMore(3, {} + {0} + {1}, 3);
    MaskMore(11, {} + {0} + {1} + {3}, 4);
    MaskMore(27, {} + {0} + {1} + {3} + {4}, 5);
    MaskMore(59, {} + {0} + {1} + {3} + {4} + {5}, 6);
    MaskMore(123, {} + {0} + {1} + {3} + {4} + {5} + {6}, 8);
    MaskMore(379, {} + {0} + {1} + {3} + {4} + {5} + {6} + {8}, 9);
    assert {} + {0} + {1} + {3} + {4} + {5} + {6} + {8} + {9} == {0, 1, 3, 4, 5, 6, 8, 9};
    BeyondZero(n, 0x37b, {0, 1, 3, 4, 5, 6, 8, 9}, 64);
  }

  /** `btrfs_at` accepts exactly the superblocks of the policy. */
  lemma BtrfsIsPolicy(crc: Crc, s: seq<Byte>, length: u64, at: nat)
    ensures BtrfsAt(crc, s, length, at).Ok? <==> BtrfsPolicy(crc, s, length, at)
  {
    hide And, Beyond, OnlyBits, U16, U32, U64;
    if |s| == 4096 {
      FlagMask(U64(s, 0x38));
      IncompatMask(U64(s, 0xbc));
      assert Zero(s[4..32]) <==> forall i :: 4 <= i < 32 ==> s[i] == 0 by { ZeroSlice(s, 4, 32); }
    }
  }

  lemma ZeroSlice(s: seq<Byte>, lo: nat, hi: nat)
    requires lo <= hi <= |s|
    ensures Zero(s[lo..hi]) <==> forall i :: lo <= i < hi ==> s[i] == 0
  {
    if Zero(s[lo..hi]) {
      forall i | lo <= i < hi ensures s[i] == 0 {
        assert s[lo..hi][i - lo] == 0;
      }
    }
  }

  // ---- the mirror gate ----

  /** The places where the program looks for a superblock. */
  predicate Place(at: nat) {
    at == 0x1_0000 || at == 0x400_0000 || at == 0x40_0000_0000
  }

  /** Byte for byte the same from 32 on, but for the eight bytes of the superblock's own address. */
  ghost predicate Agree(p: seq<Byte>, at: nat)
    requires 0x1_1000 <= |p| && at + 4096 <= |p|
  {
    var a, b := p[0x1_0000..0x1_1000], p[at..at + 4096];
    forall i :: 32 <= i < 4096 && !(48 <= i < 56) ==> a[i] == b[i]
  }

  /** A Btrfs volume is accepted if and only if every superblock in it meets the policy and agrees with the primary. */
  lemma BtrfsGate(crc: Crc, p: seq<Byte>)
    requires |p| < U64_LIMIT
    ensures Check(crc, p, Btrfs).Ok? <==>
      && 0x1_1000 <= |p|
      && forall at: nat :: Place(at) && at + 4096 <= |p| ==>
           BtrfsPolicy(crc, p[at..at + 4096], |p|, at) && Agree(p, at)
  {
    hide BtrfsPolicy, BtrfsAt, Check, Agree, SameCommit;
    MirrorGate(crc, p);
    PlacesAreCandidates();
    if 0x1_1000 <= |p| {
      forall at: nat | Place(at) && at + 4096 <= |p|
        ensures BtrfsPolicy(crc, p[at..at + 4096], |p|, at) <==> BtrfsAt(crc, Super(p, at), |p|, at).Ok?
        ensures Agree(p, at) <==> SameCommit(Super(p, PRIMARY), Super(p, at))
      {
        BtrfsIsPolicy(crc, p[at..at + 4096], |p|, at);
        AgreeIs(p, at);
      }
    }
  }

  lemma PlacesAreCandidates()
    ensures forall at: nat :: Place(at) <==> Candidate(at)
  {
    assert MIRRORS[0] == 0x400_0000 && MIRRORS[1] == 0x40_0000_0000;
  }

  lemma AgreeIs(p: seq<Byte>, at: nat)
    requires 0x1_1000 <= |p| && at + 4096 <= |p|
    ensures Agree(p, at) <==> SameCommit(Super(p, PRIMARY), Super(p, at))
  {
    var a, b := Super(p, PRIMARY), Super(p, at);
    if SameCommit(a, b) {
      forall i | 32 <= i < 4096 && !(48 <= i < 56) ensures a[i] == b[i] {
        if i < 48 {
          assert a[32..48][i - 32] == b[32..48][i - 32];
        } else {
          assert a[56..][i - 56] == b[56..][i - 56];
        }
      }
    }
    if Agree(p, at) {
      assert forall i :: 32 <= i < 4096 && !(48 <= i < 56) ==> a[i] == b[i];
    }
  }

  // ---- ext4 ----

  /** The features and fixed values of an ext4 superblock that the program mounts. */
  ghost predicate Ext4Fields(crc: Crc, s: seq<Byte>)
    requires |s| == 1024
  {
    && U16(s, 0x38) == 0xef53 && s[0x175] == 1 && U32(s, 0x3fc) == 0xffff_ffff - crc(s[..0x3fc])
    && U16(s, 0x3a) == 1 && U32(s, 0xe8) == 0 && U32(s, 0x280) == 0
    && OnlyBits(U32(s, 0x5c), {2, 3, 4, 5}) && Bit(U32(s, 0x5c), 2)
    && OnlyBits(U32(s, 0x60), {1, 6, 7, 9, 13}) && Bit(U32(s, 0x60), 1) && Bit(U32(s, 0x60), 6)
    && OnlyBits(U32(s, 0x64), {0, 1, 3, 5, 6, 10}) && Bit(U32(s, 0x64), 10)
    && U32(s, 0x4c) == 1 && U16(s, 0x58) == 256 && U32(s, 0x18) == 2 && U32(s, 0x1c) == 2 && U32(s, 0x14) == 0
    && U32(s, 0xe0) != 0 && U32(s, 0xe4) == 0 && (forall i :: 0xd0 <= i < 0xe0 ==> s[i] == 0)
  }

  /** The descriptor size of a 64-bit image, or no high halves. */
  ghost predicate Ext4Width(s: seq<Byte>)
    requires |s| == 1024
  {
    if Bit(U32(s, 0x60), 7) then U16(s, 0xfe) == 64
    else U32(s, 0x150) == 0 && U32(s, 0x154) == 0 && U32(s, 0x158) == 0
  }

  lemma AndOneBit(n: nat, j: nat)
    ensures And(n, Pow2(j)) == 0 <==> !Bit(n, j)
  {
    hide Bit, And, Pow2;
    var m := Pow2(j);
    NoMask();
    Positive(j);
    MaskMore(0, {}, j);
    assert IsMask(m, {} + {j});
    AndZero(n, m);
    assert Bit(m, j);
    if Bit(n, j) {
      assert Common(n, m, j);
    } else {
      forall k: nat ensures !Common(n, m, k) {
        assert Bit(m, k) ==> k == j;
      }
    }
  }

  lemma Positive(j: nat)
    ensures 0 < Pow2(j)
  {
  }

  lemma BothBits(n: nat)
    ensures And(n, 0x42) == 0x42 <==> Bit(n, 1) && Bit(n, 6)
  {
    hide Bit, And, Pow2;
    Powers();
    AndOneBit(n, 1);
    AndOneBit(n, 6);
    AndCommutes(n, 0x42);
    AndCommutes(n, 2);
    AndCommutes(n, 64);
    And66(n);
    AndDouble(1, n);
    AndOne(n / 2);
    And64(n);
  }

  lemma And64(n: nat)
    ensures And(64, n) == n / 64 % 2 * 64
  {
    hide And;
    AndSixteen(4, n);
    AndFour(n / 16);
  }

  lemma CompatMask(n: u32)
    ensures Beyond(n, 0x3c, 0x1_0000_0000) == 0 <==> OnlyBits(n, {2, 3, 4, 5})
  {
    hide Pow2, And, Bit, Beyond, IsMask, OnlyBits;
    Word(32);
    Powers();
    NoMask();
    MaskMore(0, {}, 2);
    MaskMore(4, {} + {2}, 3);
    MaskMore(12, {} + {2} + {3}, 4);
    MaskMore(28, {} + {2} + {3} + {4}, 5);
    assert {} + {2} + {3} + {4} + {5} == {2, 3, 4, 5};
    BeyondZero(n, 0x3c, {2, 3, 4, 5}, 32);
  }

  lemma Ext4IncompatMask(n: u32)
    ensures Beyond(n, 0x22c2, 0x1_0000_0000) == 0 <==> OnlyBits(n, {1, 6, 7, 9, 13})
  {
    hide Pow2, And, Bit, Beyond, IsMask, OnlyBits;
    Word(32);
    Powers();
    NoMask();
    MaskMore(0, {}, 1);
    MaskMore(2, {} + {1}, 6);
    MaskMore(66, {} + {1} + {6}, 7);
    MaskMore(194, {} + {1} + {6} + {7}, 9);
    MaskMore(706, {} + {1} + {6} + {7} + {9}, 13);
    assert {} + {1} + {6} + {7} + {9} + {13} == {1, 6, 7, 9, 13};
    BeyondZero(n, 0x22c2, {1, 6, 7, 9, 13}, 32);
  }

  lemma ReadOnlyMask(n: u32)
    ensures Beyond(n, 0x46b, 0x1_0000_0000) == 0 <==> OnlyBits(n, {0, 1, 3, 5, 6, 10})
  {
    hide Pow2, And, Bit, Beyond, IsMask, OnlyBits;
    Word(32);
    Powers();
    NoMask();
    MaskMore(0, {}, 0);
    MaskMore(1, {} + {0}, 1);
    MaskMore(3, {} + {0} + {1}, 3);
    MaskMore(11, {} + {0} + {1} + {3}, 5);
    MaskMore(43, {} + {0} + {1} + {3} + {5}, 6);
    MaskMore(107, {} + {0} + {1} + {3} + {5} + {6}, 10);
    assert {} + {0} + {1} + {3} + {5} + {6} + {10} == {0, 1, 3, 5, 6, 10};
    BeyondZero(n, 0x46b, {0, 1, 3, 5, 6, 10}, 32);
  }

  lemma Ext4IsFields(crc: Crc, s: seq<Byte>)
    requires |s| == 1024
    ensures Ext4Features(crc, s).Ok? <==> Ext4Fields(crc, s)
  {
    hide And, Beyond, Bit, U16, U32, Zero, Pow2;
    CompatMask(U32(s, 0x5c));
    Ext4IncompatMask(U32(s, 0x60));
    ReadOnlyMask(U32(s, 0x64));
    Powers();
    Pow2Sixteen(0);
    AndOneBit(U32(s, 0x5c), 2);
    AndOneBit(U32(s, 0x60), 2);
    BothBits(U32(s, 0x60));
    AndOneBit(U32(s, 0x64), 10);
    AndOneBit(U32(s, 0x64), 16);
    ZeroSlice(s, 0xd0, 0xe0);
  }

  lemma WidthIs(s: seq<Byte>)
    requires |s| == 1024
    ensures WideFields(s) <==> Ext4Width(s)
    ensures Has64(s) <==> Bit(U32(s, 0x60), 7)
  {
    hide And, Bit, U16, U32, Pow2;
    Powers();
    AndOneBit(U32(s, 0x60), 7);
  }

  /**
   An ext4 volume is accepted if and only if the superblock at 1024 has the fields, the widths
   and a sound geometry over unbounded numbers.
   */
  lemma Ext4Gate(crc: Crc, p: seq<Byte>)
    requires |p| < U64_LIMIT
    ensures Check(crc, p, Ext4).Ok? <==>
      && 2048 <= |p|
      && var s := p[1024..2048];
      && Ext4Fields(crc, s) && Ext4Width(s) && exists groups: nat :: Geometry(CountsOf(s), groups, |p|)
  {
    hide Ext4Fields, Ext4Width, Ext4Policy, CountsOf, Geometry;
    if 2048 <= |p| {
      var s := p[1024..2048];
      Ext4IsGeometry(crc, s, |p|);
      Ext4IsFields(crc, s);
      WidthIs(s);
    }
  }
}
