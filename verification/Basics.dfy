/** Vocabulary shared by every module: bytes, 64-bit words, errors and results. */
module Basics {
  type Byte = bv8

  const U64_LIMIT: int := 0x1_0000_0000_0000_0000
  type u64 = x: int | 0 <= x < 0x1_0000_0000_0000_0000
  type u32 = x: int | 0 <= x < 0x1_0000_0000

  /** A byte as a number. */
  type Octet = x: int | 0 <= x < 256

  function Octets(b: seq<Byte>): (r: seq<Octet>)
    ensures |r| == |b|
  {
    seq(|b|, i requires 0 <= i < |b| => b[i] as int)
  }

  function Pow256(n: nat): (r: nat)
    ensures r >= 1
  {
    if n == 0 then 1 else 256 * Pow256(n - 1)
  }

  function FromLittleEndian(b: seq<Octet>): (n: nat)
    ensures n < Pow256(|b|)
  {
    if b == [] then 0 else b[0] + 256 * FromLittleEndian(b[1..])
  }

  /** The largest transfer a session accepts. */
  const MAX_TRANSFER: nat := 1048576

  datatype Error =
    | MetadataInvalid | MetadataRecoveryRequired | UnsupportedProfile
    | ReencryptionUnsupported | ResourceLimit | UnlockFailed | BackendIo
    | InvalidRange | FsTypeMismatch | FsInvalid | FsRecoveryRequired
    | FsUnsupportedFeature | FsDriverUnavailable | FsGateUnpassed
    | WritebackFailed | UnsupportedOperation | VolumeDiscoveryFailed
    | UncleanClose | DevicePublishFailed | ReadOnly | Stopping | Crypto

  datatype Option<+T> = None | Some(value: T)

  datatype Result<+T> = Ok(value: T) | Err(error: Error) {
    predicate IsFailure() { Err? }

    function PropagateFailure<U>(): Result<U>
      requires Err?
    {
      Err(error)
    }

    function Extract(): T
      requires Ok?
    {
      value
    }
  }

  function Need(b: bool, e: Error): Result<()> {
    if b then Ok(()) else Err(e)
  }

  predicate Zero(b: seq<Byte>) {
    forall i :: 0 <= i < |b| ==> b[i] == 0
  }

  /** How a call ends: it returns, or it unwinds out of the callee. */
  datatype Ended<+T> = Done(result: Result<T>) | Panicked

  datatype AccessMode = ReadOnlyMode | ReadWriteMode

  /** `s` with the bytes from `at` on replaced by `b`. */
  function Splice<T>(s: seq<T>, at: nat, b: seq<T>): (r: seq<T>)
    requires at + |b| <= |s|
    ensures |r| == |s|
    ensures forall i :: 0 <= i < |s| ==> r[i] == if at <= i < at + |b| then b[i - at] else s[i]
  {
    seq(|s|, i requires 0 <= i < |s| => if at <= i < at + |b| then b[i - at] else s[i])
  }

  lemma SpliceTwice<T>(s: seq<T>, at: nat, a: seq<T>, b: seq<T>)
    requires at + |a| + |b| <= |s|
    ensures Splice(Splice(s, at, a), at + |a|, b) == Splice(s, at, a + b)
  {
  }

  /** Three consecutive pieces of a sequence, by position. */
  lemma Pieces<T>(a: seq<T>, b: seq<T>, c: seq<T>)
    ensures (a + b + c)[..|a|] == a
    ensures (a + b + c)[|a|..|a| + |b|] == b
    ensures (a + b + c)[|a| + |b|..] == c
  {
  }

  lemma Cut<T>(s: seq<T>, lo: nat, hi: nat)
    requires lo <= hi <= |s|
    ensures s[..lo] + s[lo..hi] + s[hi..] == s
  {
  }

  lemma SpliceIsCut<T>(s: seq<T>, at: nat, b: seq<T>)
    requires at + |b| <= |s|
    ensures Splice(s, at, b) == s[..at] + b + s[at + |b|..]
  {
  }

  /** Replacing the middle of three pieces. */
  lemma SpliceMiddle<T>(a: seq<T>, b: seq<T>, c: seq<T>, w: seq<T>)
    requires |w| == |b|
    ensures Splice(a + b + c, |a|, w) == a + w + c
  {
  }

  lemma SliceOfPrefix<T>(s: seq<T>, hi: nat, a: nat, b: nat)
    requires a <= b <= hi <= |s|
    ensures s[..hi][a..b] == s[a..b]
  {
  }

  lemma SliceOfSlice<T>(s: seq<T>, lo: nat, hi: nat, a: nat, b: nat)
    requires lo <= hi <= |s| && a <= b && lo + b <= hi
    ensures s[lo..hi][a..b] == s[lo + a..lo + b]
  {
    forall i | 0 <= i < b - a ensures s[lo..hi][a..b][i] == s[lo + a..lo + b][i] {
      assert s[lo..hi][a..b][i] == s[lo..hi][a + i];
    }
  }
}
