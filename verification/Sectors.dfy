/**
 The sector cipher of `src/crypto.rs`. AES-XTS itself is a per-sector bijection
 passed in as a value; what is modelled is how a transfer is cut into 512-byte
 data units, each under its own index.
 */
module Sectors {
  import opened Basics

  /** The 16 bytes of an XTS tweak. */
  type Tweak = seq<Octet>

  /** Encryption and decryption of one block under a key and a tweak. */
  datatype Cipher = Cipher(
    enc: (seq<Byte>, Tweak, seq<Byte>) -> seq<Byte>,
    dec: (seq<Byte>, Tweak, seq<Byte>) -> seq<Byte>)

  datatype Mode = Encrypt | Decrypt

  /** Under each key and tweak the cipher permutes the 512-byte blocks. */
  ghost predicate Lawful(c: Cipher) {
    && (forall key: seq<Byte>, iv: Tweak, b: seq<Byte> {:trigger c.enc(key, iv, b)} ::
          |b| == 512 ==> |c.enc(key, iv, b)| == 512 && c.dec(key, iv, c.enc(key, iv, b)) == b)
    && (forall key: seq<Byte>, iv: Tweak, b: seq<Byte> {:trigger c.dec(key, iv, b)} ::
          |b| == 512 ==> |c.dec(key, iv, b)| == 512 && c.enc(key, iv, c.dec(key, iv, b)) == b)
  }

  function Flip(mode: Mode): Mode {
    if mode.Encrypt? then Decrypt else Encrypt
  }

  /** The block with sector number `k`, under the tweak made of that number. */
  function Apply(c: Cipher, mode: Mode, key: seq<Byte>, k: nat, block: seq<Byte>): seq<Byte> {
    if mode.Encrypt? then c.enc(key, Iv(k), block) else c.dec(key, Iv(k), block)
  }

  /** Each 512-byte block under its own index, counted from `first`. */
  ghost function Crypt(c: Cipher, mode: Mode, key: seq<Byte>, first: nat, data: seq<Byte>): (r: seq<Byte>)
    requires Lawful(c) && |data| % 512 == 0
    ensures |r| == |data|
    decreases |data|
  {
    if data == [] then []
    else Apply(c, mode, key, first, data[..512]) + Crypt(c, mode, key, first + 1, data[512..])
  }

  lemma CryptCons(c: Cipher, mode: Mode, key: seq<Byte>, first: nat, data: seq<Byte>, rest: seq<Byte>)
    requires Lawful(c) && |data| % 512 == 0 && data != [] && |rest| % 512 == 0
    ensures data[512..] + rest == (data + rest)[512..]
    ensures Crypt(c, mode, key, first, data + rest)
         == Apply(c, mode, key, first, data[..512]) + Crypt(c, mode, key, first + 1, data[512..] + rest)
    ensures Crypt(c, mode, key, first, data)
         == Apply(c, mode, key, first, data[..512]) + Crypt(c, mode, key, first + 1, data[512..])
  {
    assert (data + rest)[..512] == data[..512] && (data + rest)[512..] == data[512..] + rest;
  }

  lemma CryptNone(c: Cipher, mode: Mode, key: seq<Byte>, first: nat)
    requires Lawful(c)
    ensures Crypt(c, mode, key, first, []) == []
  {
  }

  lemma CryptOne(c: Cipher, mode: Mode, key: seq<Byte>, k: nat, block: seq<Byte>)
    requires Lawful(c) && |block| == 512
    ensures Crypt(c, mode, key, k, block) == Apply(c, mode, key, k, block)
  {
    assert block[..512] == block && block[512..] == [];
  }

  /** Encrypting a concatenation is concatenating, the second part under shifted indices. */
  lemma {:induction false} CryptConcat(c: Cipher, mode: Mode, key: seq<Byte>, first: nat, x: seq<Byte>, n: nat,
      y: seq<Byte>)
    requires Lawful(c) && |x| == 512 * n && |y| % 512 == 0
    ensures Crypt(c, mode, key, first, x + y) == Crypt(c, mode, key, first, x) + Crypt(c, mode, key, first + n, y)
    decreases n
  {
    hide Crypt;
    if n == 0 {
      assert x + y == y;
      CryptNone(c, mode, key, first);
    } else {
      CryptCons(c, mode, key, first, x, y);
      CryptConcat(c, mode, key, first + 1, x[512..], n - 1, y);
    }
  }

  lemma ApplyInverts(c: Cipher, mode: Mode, key: seq<Byte>, k: nat, block: seq<Byte>)
    requires Lawful(c) && |block| == 512
    ensures |Apply(c, mode, key, k, block)| == 512
    ensures Apply(c, Flip(mode), key, k, Apply(c, mode, key, k, block)) == block
  {
    hide Iv;
  }

  /** Decryption undoes encryption, and encryption undoes decryption. */
  lemma {:induction false} CryptInverts(c: Cipher, mode: Mode, key: seq<Byte>, first: nat, data: seq<Byte>)
    requires Lawful(c) && |data| % 512 == 0
    ensures Crypt(c, Flip(mode), key, first, Crypt(c, mode, key, first, data)) == data
    decreases |data|
  {
    hide Lawful, Apply, Flip;
    if data != [] {
      var head, tail := Apply(c, mode, key, first, data[..512]), Crypt(c, mode, key, first + 1, data[512..]);
      ApplyInverts(c, mode, key, first, data[..512]);
      assert (head + tail)[..512] == head && (head + tail)[512..] == tail;
      CryptInverts(c, mode, key, first + 1, data[512..]);
      assert data == data[..512] + data[512..];
    }
  }

  /** Three consecutive whole-sector pieces are transformed independently. */
  lemma CryptThree(c: Cipher, mode: Mode, key: seq<Byte>, first: nat, x: seq<Byte>, n: nat, w: seq<Byte>, m: nat,
      y: seq<Byte>)
    requires Lawful(c) && |x| == 512 * n && |w| == 512 * m && |y| % 512 == 0
    ensures Crypt(c, mode, key, first, x + w + y)
         == Crypt(c, mode, key, first, x) + Crypt(c, mode, key, first + n, w) + Crypt(c, mode, key, first + n + m, y)
  {
    hide Crypt;
    CryptConcat(c, mode, key, first, x + w, n + m, y);
    CryptConcat(c, mode, key, first, x, n, w);
  }

  /** The `m` sectors from number `n` on. */
  function Window(data: seq<Byte>, n: nat, m: nat): (w: seq<Byte>)
    requires 512 * n + 512 * m <= |data|
    ensures |w| == 512 * m && |w| % 512 == 0
  {
    data[512 * n..512 * n + 512 * m]
  }

  /** A whole-sector window of the result is the window transformed on its own, index shifted. */
  lemma CryptWindow(c: Cipher, mode: Mode, key: seq<Byte>, first: nat, data: seq<Byte>, n: nat, m: nat)
    requires Lawful(c) && |data| % 512 == 0 && 512 * n + 512 * m <= |data|
    ensures Window(Crypt(c, mode, key, first, data), n, m) == Crypt(c, mode, key, first + n, Window(data, n, m))
  {
    hide Crypt, Lawful;
    var lo, hi := 512 * n, 512 * n + 512 * m;
    var x, w, y := data[..lo], Window(data, n, m), data[hi..];
    Cut(data, lo, hi);
    CryptThree(c, mode, key, first, x, n, w, m, y);
    Pieces(Crypt(c, mode, key, first, x), Crypt(c, mode, key, first + n, w), Crypt(c, mode, key, first + n + m, y));
  }

  /** Sector `k` of the result depends on sector `k` of the input alone. */
  lemma SectorOfCrypt(c: Cipher, mode: Mode, key: seq<Byte>, first: nat, data: seq<Byte>, k: nat)
    requires Lawful(c) && |data| % 512 == 0 && 512 * k + 512 <= |data|
    ensures Window(Crypt(c, mode, key, first, data), k, 1) == Apply(c, mode, key, first + k, Window(data, k, 1))
  {
    hide Crypt, Lawful, Window, Apply;
    CryptWindow(c, mode, key, first, data, k, 1);
    CryptOne(c, mode, key, first + k, Window(data, k, 1));
  }

  /** Replacing whole sectors of the input replaces those sectors of the result and no others. */
  lemma CryptSplice(c: Cipher, mode: Mode, key: seq<Byte>, p: seq<Byte>, n: nat, w: seq<Byte>, m: nat)
    requires Lawful(c) && |p| % 512 == 0 && |w| == 512 * m && 512 * n + 512 * m <= |p|
    ensures Crypt(c, mode, key, 0, Splice(p, 512 * n, w))
         == Splice(Crypt(c, mode, key, 0, p), 512 * n, Crypt(c, mode, key, n, w))
  {
    hide Crypt, Lawful;
    var x, v, y := p[..512 * n], Window(p, n, m), p[512 * n + 512 * m..];
    Cut(p, 512 * n, 512 * n + 512 * m);
    CryptThree(c, mode, key, 0, x, n, v, m, y);
    CryptThree(c, mode, key, 0, x, n, w, m, y);
    SpliceMiddle(x, v, y, w);
    SpliceMiddle(Crypt(c, mode, key, 0, x), Crypt(c, mode, key, n, v), Crypt(c, mode, key, n + m, y),
      Crypt(c, mode, key, n, w));
  }

  /** The little-endian sector number in the low half of the 16-byte XTS tweak. */
  function Iv(k: nat): (iv: Tweak)
    ensures |iv| == 16
  {
    LittleEndian(k, 8) + seq(8, _ => 0)
  }

  function LittleEndian(k: nat, n: nat): (r: seq<Octet>)
    ensures |r| == n
  {
    if n == 0 then [] else [k % 256] + LittleEndian(k / 256, n - 1)
  }

  lemma {:induction false} LittleEndianInverts(k: nat, n: nat)
    requires k < Pow256(n)
    ensures FromLittleEndian(LittleEndian(k, n)) == k
  {
    if n > 0 {
      LittleEndianInverts(k / 256, n - 1);
      assert LittleEndian(k, n)[1..] == LittleEndian(k / 256, n - 1);
    }
  }

  /** Distinct sectors are encrypted under distinct tweaks. */
  lemma IvInjective(j: u64, k: u64)
    requires Iv(j) == Iv(k)
    ensures j == k
  {
    assert Pow256(8) == U64_LIMIT by {
      assert Pow256(4) == 0x1_0000_0000;
      assert Pow256(6) == 256 * 256 * Pow256(4);
    }
    assert LittleEndian(j, 8) == Iv(j)[..8] == Iv(k)[..8] == LittleEndian(k, 8);
    LittleEndianInverts(j, 8);
    LittleEndianInverts(k, 8);
  }

  lemma {:induction false} FromLittleEndianInverts(b: seq<Octet>)
    ensures LittleEndian(FromLittleEndian(b), |b|) == b
  {
    if b != [] {
      FromLittleEndianInverts(b[1..]);
      var n := FromLittleEndian(b);
      assert n % 256 == b[0] && n / 256 == FromLittleEndian(b[1..]);
      assert b == [b[0]] + b[1..];
    }
  }

  /** The sixteen bytes of a tweak: eight little-endian ones for the number, eight zeros. */
  predicate IsTweak(t: Tweak, n: nat) {
    |t| == 16 && FromLittleEndian(t[..8]) == n && forall i :: 8 <= i < 16 ==> t[i] == 0
  }

  lemma TweakIs(t: Tweak, n: u64)
    ensures IsTweak(t, n) <==> t == Iv(n)
  {
    assert Pow256(8) == U64_LIMIT by {
      assert Pow256(4) == 0x1_0000_0000;
      assert Pow256(6) == 256 * 256 * Pow256(4);
    }
    LittleEndianInverts(n, 8);
    assert Iv(n)[..8] == LittleEndian(n, 8);
    if IsTweak(t, n) {
      FromLittleEndianInverts(t[..8]);
      assert t == t[..8] + t[8..] && t[8..] == seq(8, _ => 0);
    }
  }

  /** Sector by sector: `r` is `data` under the cipher, each block with the tweak of its own number. */
  ghost predicate SectorBySector(c: Cipher, mode: Mode, key: seq<Byte>, first: nat, data: seq<Byte>, r: seq<Byte>)
    requires |r| == |data|
  {
    forall k: nat, t: Tweak :: 512 * k + 512 <= |data| && IsTweak(t, first + k) ==>
      Window(r, k, 1) ==
        if mode == Encrypt then c.enc(key, t, Window(data, k, 1)) else c.dec(key, t, Window(data, k, 1))
  }

  lemma CryptIsSectorBySector(c: Cipher, mode: Mode, key: seq<Byte>, first: nat, data: seq<Byte>)
    requires Lawful(c) && |data| % 512 == 0 && first + |data| / 512 <= U64_LIMIT
    ensures SectorBySector(c, mode, key, first, data, Crypt(c, mode, key, first, data))
  {
    hide Crypt, Lawful, Window, Iv, IsTweak;
    forall k: nat, t: Tweak | 512 * k + 512 <= |data| && IsTweak(t, first + k)
      ensures Window(Crypt(c, mode, key, first, data), k, 1) ==
        if mode == Encrypt then c.enc(key, t, Window(data, k, 1)) else c.dec(key, t, Window(data, k, 1))
    {
      TweakIs(t, first + k);
      SectorOfCrypt(c, mode, key, first, data, k);
    }
  }

  /**
   The transfer loop: one cipher call per sector into the output buffer. The index
   check refuses exactly the transfers whose last sector number leaves 64 bits.
   */
  method CryptSectors(c: Cipher, key: seq<Byte>, first: u64, data: seq<Byte>, mode: Mode) returns (r: Result<seq<Byte>>)
    requires Lawful(c)
    ensures |key| != 32 && |key| != 64 ==> r == Err(UnsupportedProfile)
    ensures |key| == 32 || |key| == 64 ==>
      if |data| % 512 != 0 || |data| > MAX_TRANSFER || first + |data| / 512 > U64_LIMIT
      then r == Err(InvalidRange)
      else r == Ok(Crypt(c, mode, key, first, data))
    ensures r.Ok? ==> |r.value| == |data| && SectorBySector(c, mode, key, first, data, r.value)
  {
    hide Crypt, SectorBySector;
    if |key| != 32 && |key| != 64 {
      return Err(UnsupportedProfile);
    }
    if |data| % 512 != 0 || |data| > 1024 * 1024 {
      return Err(InvalidRange);
    }
    var out := new Byte[|data|];
    var i, n := 0, |data| / 512;
    assert |data| == 512 * n;
    CryptNone(c, mode, key, first);
    while i < n
      invariant 0 <= i <= n
      invariant first + i <= U64_LIMIT
      invariant out[..512 * i] == Crypt(c, mode, key, first, data[..512 * i])
    {
      if first + i >= U64_LIMIT {
        return Err(InvalidRange);
      }
      var lo := 512 * i;
      ghost var was := out[..lo];
      var tmp := Apply(c, mode, key, first + i, data[lo..lo + 512]);
      forall j | 0 <= j < 512 {
        out[lo + j] := tmp[j];
      }
      CryptOne(c, mode, key, first + i, data[lo..lo + 512]);
      CryptConcat(c, mode, key, first, data[..lo], i, data[lo..lo + 512]);
      assert data[..lo] + data[lo..lo + 512] == data[..lo + 512];
      assert out[..lo + 512] == was + tmp;
      i := i + 1;
    }
    assert data[..512 * i] == data && out[..512 * i] == out[..];
    CryptIsSectorBySector(c, mode, key, first, data);
    return Ok(out[..]);
  }

  /** A concrete lawful cipher: each byte is xored with the low byte of the tweak. */
  function Masked(iv: Tweak, b: seq<Byte>): (r: seq<Byte>)
    ensures |r| == |b|
  {
    seq(|b|, i requires 0 <= i < |b| => if iv == [] then b[i] else b[i] ^ (iv[0] as bv8))
  }

  const XorCipher := Cipher(
    (key: seq<Byte>, iv: Tweak, b: seq<Byte>) => Masked(iv, b),
    (key: seq<Byte>, iv: Tweak, b: seq<Byte>) => Masked(iv, b))

  lemma XorCipherIsLawful()
    ensures Lawful(XorCipher)
  {
    forall iv: Tweak, b: seq<Byte> ensures Masked(iv, Masked(iv, b)) == b {
      forall i | 0 <= i < |b| ensures Masked(iv, Masked(iv, b))[i] == b[i] {
        if iv != [] {
          XorTwice(b[i], iv[0] as bv8);
        }
      }
    }
  }

  lemma XorTwice(x: Byte, y: Byte)
    ensures (x ^ y) ^ y == x
  {
  }
}
