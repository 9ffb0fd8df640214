/**
 Key derivation limits and the anti-forensic merge of `src/crypto.rs`. The hash and
 derivation primitives are values; only the sizes of their results are known.
 */
module AntiForensic {
  import opened Basics

  datatype Hash = Sha256 | Sha512

  function HashSize(h: Hash): nat {
    if h.Sha256? then 32 else 64
  }

  function HashParse(s: string): Result<Hash> {
    if s == "sha256" then Ok(Sha256) else if s == "sha512" then Ok(Sha512) else Err(UnsupportedProfile)
  }

  datatype Kdf =
    | Pbkdf2(hash: Hash, iterations: u32, salt: seq<Byte>)
    | Argon2(id: bool, memory: u32, time: u32, cpus: u32, salt: seq<Byte>)

  datatype Primitives = Primitives(
    hash: (Hash, seq<Byte>) -> seq<Byte>,
    derive: (Kdf, seq<Byte>, nat) -> seq<Byte>)

  ghost predicate Sized(p: Primitives) {
    && (forall h: Hash, b: seq<Byte> :: |p.hash(h, b)| == HashSize(h))
    && (forall k: Kdf, b: seq<Byte>, n: nat :: |p.derive(k, b, n)| == n)
  }

  // ---- derivation ----

  /** What the Argon2 library demands of its parameters, besides the caps of this program. */
  predicate ArgonAccepts(memory: u32, time: u32, cpus: u32, size: nat) {
    cpus >= 1 && time >= 1 && memory >= 8 * cpus && size >= 4
  }

  /** `Kdf::derive` without its soft deadline. */
  function Derive(p: Primitives, kdf: Kdf, password: seq<Byte>, size: nat): Result<seq<Byte>> {
    if size == 0 || size > 64 then Err(ResourceLimit)
    else match kdf
      case Pbkdf2(_, iterations, _) =>
        if iterations == 0 || iterations > 10_000_000 then Err(ResourceLimit) else Ok(p.derive(kdf, password, size))
      case Argon2(_, memory, time, cpus, salt) =>
        if memory > 1_048_576 || time > 10 || cpus > 8 then Err(ResourceLimit)
        else if !ArgonAccepts(memory, time, cpus, size) then Err(MetadataInvalid)
        else if |salt| < 8 then Err(Crypto)
        else Ok(p.derive(kdf, password, size))
  }

  /** The cost limits every accepted keyslot or digest has passed. */
  predicate Affordable(kdf: Kdf) {
    match kdf
    case Pbkdf2(_, iterations, salt) => 0 < iterations <= 10_000_000 && |salt| == 32
    case Argon2(_, memory, time, cpus, salt) =>
      0 < time <= 10 && 0 < cpus <= 8 && 8 * cpus <= memory <= 1_048_576 && |salt| == 32
  }

  // ---- the merge ----

  const STRIPES: nat := 4000

  function Xor(a: seq<Byte>, b: seq<Byte>): (r: seq<Byte>)
    requires |a| == |b|
    ensures |r| == |a|
  {
    seq(|a|, i requires 0 <= i < |a| => a[i] ^ b[i])
  }

  lemma XorCancels(a: seq<Byte>, b: seq<Byte>)
    requires |a| == |b|
    ensures Xor(a, Xor(a, b)) == b
  {
    forall i | 0 <= i < |a| ensures Xor(a, Xor(a, b))[i] == b[i] {
      ByteCancels(a[i], b[i]);
    }
  }

  lemma ByteCancels(x: Byte, y: Byte)
    ensures x ^ (x ^ y) == y
  {
  }

  function Be32(n: nat): seq<Byte>
    requires n < 0x1_0000_0000
  {
    [(n / 0x100_0000) as Byte, (n / 0x1_0000 % 0x100) as Byte, (n / 0x100 % 0x100) as Byte, (n % 0x100) as Byte]
  }

  /** Each block of the state is replaced by the hash of its number and itself. */
  ghost function Diffuse(p: Primitives, alg: Hash, s: seq<Byte>, index: nat): (r: seq<Byte>)
    requires Sized(p) && index + |s| < 0x1_0000_0000
    ensures |r| == |s|
    decreases |s|
  {
    if s == [] then []
    else
      var n := if |s| < HashSize(alg) then |s| else HashSize(alg);
      p.hash(alg, Be32(index) + s[..n])[..n] + Diffuse(p, alg, s[n..], index + 1)
  }

  lemma DiffuseBlock(p: Primitives, alg: Hash, pre: seq<Byte>, s: seq<Byte>, index: nat, n: nat)
    requires Sized(p) && index + |s| < 0x1_0000_0000 && s != []
    requires n == if |s| < HashSize(alg) then |s| else HashSize(alg)
    ensures pre + Diffuse(p, alg, s, index)
         == (pre + p.hash(alg, Be32(index) + s[..n])[..n]) + Diffuse(p, alg, s[n..], index + 1)
  {
  }

  lemma DiffuseNothing(p: Primitives, alg: Hash, index: nat)
    requires Sized(p) && index < 0x1_0000_0000
    ensures Diffuse(p, alg, [], index) == []
  {
  }

  function Stripe(data: seq<Byte>, size: nat, k: nat): (r: seq<Byte>)
    requires (k + 1) * size <= |data|
    ensures |r| == size
  {
    StripeBounds(size, k);
    data[k * size..k * size + size]
  }

  lemma StripeBounds(size: nat, k: nat)
    ensures 0 <= k * size && k * size + size == (k + 1) * size
  {
  }

  /** The state after the first `k` stripes. */
  ghost function Folded(p: Primitives, alg: Hash, data: seq<Byte>, size: nat, k: nat): (r: seq<Byte>)
    requires Sized(p) && size <= 64 && k * size <= |data|
    ensures |r| == size
    decreases k
  {
    if k == 0 then seq(size, _ => 0)
    else
      StripeBounds(size, k - 1);
      Diffuse(p, alg, Xor(Folded(p, alg, data, size, k - 1), Stripe(data, size, k - 1)), 0)
  }

  /** The key hidden in 4000 stripes. */
  ghost function Merged(p: Primitives, alg: Hash, data: seq<Byte>, size: nat): seq<Byte>
    requires Sized(p) && size <= 64 && |data| == size * STRIPES
  {
    Xor(Folded(p, alg, data, size, STRIPES - 1), data[size * (STRIPES - 1)..])
  }

  /** The last stripe that hides `key` behind the given first 3999. */
  ghost function LastStripe(p: Primitives, alg: Hash, stripes: seq<Byte>, key: seq<Byte>): (r: seq<Byte>)
    requires Sized(p) && |key| <= 64 && |stripes| == |key| * (STRIPES - 1)
    ensures |r| == |key|
  {
    Xor(Folded(p, alg, stripes, |key|, STRIPES - 1), key)
  }

  /** The state depends on the stripes it has absorbed only. */
  lemma {:induction false} FoldedPrefix(p: Primitives, alg: Hash, data: seq<Byte>, more: seq<Byte>, size: nat, k: nat)
    requires Sized(p) && size <= 64 && k * size <= |data|
    ensures Folded(p, alg, data + more, size, k) == Folded(p, alg, data, size, k)
    decreases k
  {
    hide Diffuse;
    if k > 0 {
      StripeBounds(size, k - 1);
      FoldedPrefix(p, alg, data, more, size, k - 1);
      assert Stripe(data + more, size, k - 1) == Stripe(data, size, k - 1);
    }
  }

  /**
   Merging inverts splitting. For any hash and any 3999 stripes, the merge yields `key`
   exactly when the last stripe is the one the split chooses for it.
   */
  lemma MergeInvertsSplit(p: Primitives, alg: Hash, stripes: seq<Byte>, last: seq<Byte>, key: seq<Byte>)
    requires Sized(p) && |key| <= 64 && |last| == |key| && |stripes| == |key| * (STRIPES - 1)
    ensures |stripes + last| == |key| * STRIPES
    ensures Merged(p, alg, stripes + last, |key|) == key <==> last == LastStripe(p, alg, stripes, key)
  {
    hide Folded;
    FoldedPrefix(p, alg, stripes, last, |key|, STRIPES - 1);
    var f := Folded(p, alg, stripes, |key|, STRIPES - 1);
    assert (stripes + last)[|key| * (STRIPES - 1)..] == last;
    XorCancels(f, key);
    XorCancels(f, last);
  }

  // ---- the merge, block by block and stripe by stripe ----

  /**
   Blocks of 32 or 64 bytes, the last one possibly short, each replaced by the hash of its
   big-endian number and itself. A key of at most 64 bytes has one or two of them.
   */
  ghost predicate Hashed(p: Primitives, alg: Hash, s: seq<Byte>, r: seq<Byte>)
    requires Sized(p) && |s| <= 64
  {
    if alg == Sha512 || |s| <= 32 then r == p.hash(alg, [0, 0, 0, 0] + s)[..|s|]
    else r == p.hash(alg, [0, 0, 0, 0] + s[..32])[..32] + p.hash(alg, [0, 0, 0, 1] + s[32..])[..|s| - 32]
  }

  lemma DiffuseIsHashed(p: Primitives, alg: Hash, s: seq<Byte>)
    requires Sized(p) && |s| <= 64
    ensures Hashed(p, alg, s, Diffuse(p, alg, s, 0))
  {
    hide Diffuse, Be32;
    assert Be32(0) == [0, 0, 0, 0] && Be32(1) == [0, 0, 0, 1] by { SmallBe32(); }
    DiffuseNothing(p, alg, 0);
    DiffuseNothing(p, alg, 1);
    DiffuseNothing(p, alg, 2);
    if s != [] {
      var n := if |s| < HashSize(alg) then |s| else HashSize(alg);
      var rest := s[n..];
      DiffuseFirst(p, alg, s, 0, n);
      if rest != [] {
        DiffuseFirst(p, alg, rest, 1, |rest|);
        assert rest[..|rest|] == rest && rest[|rest|..] == [];
      } else {
        assert s[..n] == s;
      }
    }
  }

  lemma SmallBe32()
    ensures Be32(0) == [0, 0, 0, 0] && Be32(1) == [0, 0, 0, 1]
  {
  }

  lemma DiffuseFirst(p: Primitives, alg: Hash, s: seq<Byte>, index: nat, n: nat)
    requires Sized(p) && index + |s| < 0x1_0000_0000 && s != []
    requires n == if |s| < HashSize(alg) then |s| else HashSize(alg)
    ensures Diffuse(p, alg, s, index) == p.hash(alg, Be32(index) + s[..n])[..n] + Diffuse(p, alg, s[n..], index + 1)
  {
  }

  /** `states` are the 4000 states of a merge: zeros, then one stripe after the other mixed in and hashed. */
  ghost predicate MergedThrough(p: Primitives, alg: Hash, data: seq<Byte>, size: nat, states: seq<seq<Byte>>,
      key: seq<Byte>)
    requires Sized(p) && (size == 32 || size == 64) && |data| == size * 4000
  {
    && |states| == 4000 && (forall k :: 0 <= k < 4000 ==> |states[k]| == size)
    && (forall i :: 0 <= i < size ==> states[0][i] == 0)
    && (forall k :: 0 <= k < 3999 ==> Hashed(p, alg, Mixed(states[k], data, k * size), states[k + 1]))
    && key == Mixed(states[3999], data, 3999 * size)
  }

  /** A state with the stripe at position `at` mixed in, byte by byte. */
  function Mixed(s: seq<Byte>, data: seq<Byte>, at: nat): (r: seq<Byte>)
    requires at + |s| <= |data|
    ensures |r| == |s|
  {
    seq(|s|, i requires 0 <= i < |s| => s[i] ^ data[at + i])
  }

  lemma MergedStates(p: Primitives, alg: Hash, data: seq<Byte>, size: nat) returns (states: seq<seq<Byte>>)
    requires Sized(p) && (size == 32 || size == 64) && |data| == size * STRIPES
    ensures MergedThrough(p, alg, data, size, states, Merged(p, alg, data, size))
  {
    hide Diffuse, Hashed, Folded;
    StripesFit(size);
    states := seq(4000, k requires 0 <= k < 4000 => StateAfter(p, alg, data, size, k));
    forall k | 0 <= k < 3999 ensures Hashed(p, alg, Mixed(states[k], data, k * size), states[k + 1]) {
      NextState(p, alg, data, size, k);
    }
    FirstState(p, alg, data, size);
    LastState(p, alg, data, size);
  }

  lemma LastState(p: Primitives, alg: Hash, data: seq<Byte>, size: nat)
    requires Sized(p) && (size == 32 || size == 64) && |data| == size * STRIPES
    ensures 3999 * size + size <= |data|
    ensures Merged(p, alg, data, size) == Mixed(StateAfter(p, alg, data, size, 3999), data, 3999 * size)
  {
    hide Folded;
    StripesFit(size);
  }

  lemma NextState(p: Primitives, alg: Hash, data: seq<Byte>, size: nat, k: nat)
    requires Sized(p) && (size == 32 || size == 64) && |data| == size * STRIPES && k < 3999
    ensures k * size + size <= |data|
    ensures Hashed(p, alg, Mixed(StateAfter(p, alg, data, size, k), data, k * size),
      StateAfter(p, alg, data, size, k + 1))
  {
    hide Diffuse, Hashed;
    StripesFit(size);
    StripeBounds(size, k);
    var f := Folded(p, alg, data, size, k);
    assert Xor(f, Stripe(data, size, k)) == Mixed(f, data, k * size);
    DiffuseIsHashed(p, alg, Xor(f, Stripe(data, size, k)));
  }

  lemma FirstState(p: Primitives, alg: Hash, data: seq<Byte>, size: nat)
    requires Sized(p) && size <= 64
    ensures Folded(p, alg, data, size, 0) == seq(size, _ => 0)
  {
  }

  ghost function StateAfter(p: Primitives, alg: Hash, data: seq<Byte>, size: nat, k: nat): (r: seq<Byte>)
    requires Sized(p) && (size == 32 || size == 64) && |data| == size * STRIPES && k < 4000
    ensures |r| == size
  {
    StripesFit(size);
    Folded(p, alg, data, size, k)
  }

  lemma StripesFit(size: nat)
    ensures forall k: nat :: k < 4000 ==> k * size + size <= size * STRIPES
  {
    forall k: nat | k < 4000 ensures k * size + size <= size * STRIPES {
      assert (k + 1) * size <= 4000 * size;
    }
  }

  method XorInto(state: array<Byte>, stripe: seq<Byte>)
    requires state.Length == |stripe|
    modifies state
    ensures state[..] == Xor(old(state[..]), stripe)
  {
    var j := 0;
    while j < state.Length
      invariant 0 <= j <= state.Length
      invariant forall i :: 0 <= i < j ==> state[i] == old(state[i]) ^ stripe[i]
      invariant forall i :: j <= i < state.Length ==> state[i] == old(state[i])
    {
      state[j] := state[j] ^ stripe[j];
      j := j + 1;
    }
    assert state[..] == Xor(old(state[..]), stripe);
  }

  method DiffuseInto(p: Primitives, alg: Hash, state: array<Byte>)
    requires Sized(p) && state.Length <= 64
    modifies state
    ensures state[..] == Diffuse(p, alg, old(state[..]), 0)
    ensures Hashed(p, alg, old(state[..]), state[..])
  {
    hide Diffuse, Be32, Hashed;
    var done, index := 0, 0;
    ghost var was := state[..];
    assert state[..0] + Diffuse(p, alg, was[0..], 0) == Diffuse(p, alg, was, 0) by { assert was[0..] == was; }
    while done < state.Length
      invariant 0 <= done <= state.Length && index <= done
      invariant state[done..] == was[done..]
      invariant state[..done] + Diffuse(p, alg, was[done..], index) == Diffuse(p, alg, was, 0)
    {
      var n := if state.Length - done < HashSize(alg) then state.Length - done else HashSize(alg);
      var block := state[done..done + n];
      assert was[done..][..n] == block by { assert state[done..][..n] == block; }
      assert was[done..][n..] == was[done + n..] && state[done..][n..] == state[done + n..];
      var digest := p.hash(alg, Be32(index) + block);
      DiffuseBlock(p, alg, state[..done], was[done..], index, n);
      CopyBlock(state, done, digest[..n]);
      done, index := done + n, index + 1;
    }
    DiffuseNothing(p, alg, index);
    assert was[done..] == [] && state[..done] == state[..];
    DiffuseIsHashed(p, alg, was);
  }

  method CopyBlock(state: array<Byte>, at: nat, block: seq<Byte>)
    requires at + |block| <= state.Length
    modifies state
    ensures state[..at + |block|] == old(state[..at]) + block
    ensures state[at + |block|..] == old(state[at + |block|..])
  {
    forall i | 0 <= i < |block| {
      state[at + i] := block[i];
    }
  }

  /** `af_merge`: stripe by stripe, in place. */
  method AfMerge(p: Primitives, data: seq<Byte>, size: nat, alg: Hash) returns (r: Result<seq<Byte>>)
    requires Sized(p)
    ensures (size != 32 && size != 64) || |data| != size * STRIPES ==> r == Err(MetadataInvalid)
    ensures (size == 32 || size == 64) && |data| == size * STRIPES ==> r == Ok(Merged(p, alg, data, size))
    ensures r.Ok? ==>
      && (size == 32 || size == 64) && |data| == size * 4000
      && exists states :: MergedThrough(p, alg, data, size, states, r.value)
  {
    hide Diffuse, MergedThrough;
    if (size != 32 && size != 64) || |data| != size * STRIPES {
      return Err(MetadataInvalid);
    }
    var state := new Byte[size](_ => 0);
    assert state[..] == seq(size, _ => 0);
    var k := 0;
    while k < STRIPES - 1
      invariant 0 <= k <= STRIPES - 1 && k * size <= |data|
      invariant state[..] == Folded(p, alg, data, size, k)
    {
      StripeBounds(size, k);
      assert (k + 1) * size <= size * STRIPES;
      var stripe := Stripe(data, size, k);
      XorInto(state, stripe);
      DiffuseInto(p, alg, state);
      k := k + 1;
    }
    XorInto(state, data[size * (STRIPES - 1)..]);
    ghost var states := MergedStates(p, alg, data, size);
    return Ok(state[..]);
  }
}
