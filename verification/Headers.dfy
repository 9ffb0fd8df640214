/** The two binary headers of `src/metadata.rs` and how the metadata is read from an open image. */
module Headers {
  import opened Basics
  import opened Images
  import opened AntiForensic
  import opened Metadata
  import opened Documents
  import Json
  import Fields
  import Parsing

  /**
   What lies outside this repository: text, UUID, base64 and token decoding, and the hash
   and derivation primitives. `tokens` is None where the tokenizer fails.
   */
  datatype Codecs = Codecs(
    utf8: seq<Byte> -> Option<string>,
    isUuid: string -> bool,
    b64: Fields.Base64,
    tokens: seq<Byte> -> Option<Json.Raw>,
    prims: Primitives)

  datatype Header = Header(size: u64, seqno: nat, uuid: string, name: string, subsystem: string, json: Json.Value)

  const FIXED: nat := 4096
  const KIB: nat := 1024

  function Magic(offset: nat): seq<Byte> {
    (if offset == 0 then [0x4c, 0x55, 0x4b, 0x53] else [0x53, 0x4b, 0x55, 0x4c]) + [0xba, 0xbe]
  }

  function Be(b: seq<Byte>): nat {
    if b == [] then 0 else 256 * Be(b[..|b| - 1]) + b[|b| - 1] as int
  }

  predicate PowerOfTwo(n: nat) {
    n == 1 || (n > 0 && n % 2 == 0 && PowerOfTwo(n / 2))
  }

  predicate HeaderSize(n: nat) {
    16 * KIB <= n <= 4 * KIB * KIB && PowerOfTwo(n)
  }

  // ---- zero-padded text ----

  /** The position of the first zero byte, if there is one. */
  function FirstZero(b: seq<Byte>): (r: Option<nat>)
    ensures r.None? <==> forall i :: 0 <= i < |b| ==> b[i] != 0
    ensures r.Some? ==> r.value < |b| && b[r.value] == 0 && forall i :: 0 <= i < r.value ==> b[i] != 0
    decreases |b|
  {
    if b == [] then None
    else if b[0] == 0 then Some(0)
    else
      match FirstZero(b[1..])
      case None => None
      case Some(n) => Some(n + 1)
  }

  /** `cstr` before its decoding: up to the first zero, if only zeros follow. */
  function Padded(b: seq<Byte>): Option<seq<Byte>> {
    match FirstZero(b)
    case None => None
    case Some(n) => if Zero(b[n..]) then Some(b[..n]) else None
  }

  /** That is the one zero-free text followed by zeros, at least one, and by nothing else. */
  lemma PaddedIsPadded(b: seq<Byte>, t: seq<Byte>)
    ensures Padded(b) == Some(t) <==> PaddedIs(b, t)
  {
    if PaddedIs(b, t) {
      var n := FirstZero(b);
      assert b[|t|..][0] == b[|t|];
      assert forall i :: 0 <= i < |t| ==> t[i] == b[i];
      assert n.Some? && n.value == |t|;
    }
  }

  ghost predicate PaddedIs(b: seq<Byte>, t: seq<Byte>) {
    && |t| < |b| && t == b[..|t|] && Zero(b[|t|..])
    && forall i :: 0 <= i < |t| ==> t[i] != 0
  }

  function CString(x: Codecs, b: seq<Byte>): Result<string> {
    match Padded(b)
    case None => Err(MetadataInvalid)
    case Some(t) => match x.utf8(t) case None => Err(MetadataInvalid) case Some(s) => Ok(s)
  }

  // ---- one header ----

  /** The fixed fields: size, hash and UUID. */
  function FixedOf(x: Codecs, b: seq<Byte>, offset: nat): (r: Result<(nat, Hash, string)>)
    requires |b| == FIXED
    ensures r.Ok? ==> HeaderSize(r.value.0) && FIXED <= r.value.0
  {
    if b[..6] != Magic(offset) || b[6..8] != [0, 2] then Err(MetadataRecoveryRequired)
    else if !HeaderSize(Be(b[8..16])) then Err(MetadataInvalid)
    else if offset != Be(b[256..264]) || (offset != 0 && offset != Be(b[8..16])) then Err(MetadataRecoveryRequired)
    else if !Zero(b[264..448]) || !Zero(b[512..]) then Err(UnsupportedProfile)
    else
      var name :- CString(x, b[72..104]);
      var alg :- HashParse(name);
      var uuid :- CString(x, b[168..208]);
      if !x.isUuid(uuid) then Err(MetadataInvalid) else Ok((Be(b[8..16]), alg, uuid))
  }

  /** The bytes a header checksum covers. */
  function Unsigned(b: seq<Byte>): (r: seq<Byte>)
    requires FIXED <= |b|
    ensures |r| == |b|
  {
    b[..448] + seq(64, _ => 0) + b[512..]
  }

  ghost function JsonOf(x: Codecs, area: seq<Byte>): Result<Json.Value> {
    match Padded(area)
    case None => Err(MetadataInvalid)
    case Some(text) =>
      match x.tokens(text)
      case None => Err(MetadataInvalid)
      case Some(raw) => if Json.StrictTree(raw) then Ok(Json.Denote(raw)) else Err(MetadataInvalid)
  }

  predicate Signed(x: Codecs, b: seq<Byte>, alg: Hash)
    requires FIXED <= |b|
  {
    Zero(b[448 + HashSize(alg)..512]) && x.prims.hash(alg, Unsigned(b)) == b[448..448 + HashSize(alg)]
  }

  /** The whole header, once its fixed fields are known: checksum, labels, JSON. */
  ghost function BodyOf(x: Codecs, b: seq<Byte>, alg: Hash, uuid: string): (r: Result<Header>)
    requires FIXED <= |b| < U64_LIMIT
    ensures r.Ok? ==> r.value.size == |b|
  {
    if !Signed(x, b, alg) then Err(MetadataRecoveryRequired)
    else if Padded(b[FIXED..]).None? then Err(MetadataInvalid)
    else
      var name :- CString(x, b[24..72]);
      var subsystem :- CString(x, b[208..256]);
      var json :- JsonOf(x, b[FIXED..]);
      Ok(Header(|b|, Be(b[16..24]), uuid, name, subsystem, json))
  }

  /** The header at `offset` of a file, with the error the first failing check gives. */
  ghost function HeaderAt(x: Codecs, file: seq<Byte>, offset: nat): (r: Result<Header>)
    requires |file| < U64_LIMIT
    ensures r.Ok? ==> HeaderSize(r.value.size) && offset + r.value.size <= |file|
  {
    hide *;
    if offset + FIXED > |file| then Err(MetadataRecoveryRequired)
    else
      match FixedOf(x, file[offset..offset + FIXED], offset)
      case Err(e) => Err(e)
      case Ok((size, alg, uuid)) => SizedHeader(x, file, offset, size, alg, uuid)
  }

  /** The header at `offset` whose size is known. */
  ghost function SizedHeader(x: Codecs, file: seq<Byte>, offset: nat, size: nat, alg: Hash,
      uuid: string): (r: Result<Header>)
    requires |file| < U64_LIMIT && FIXED <= size
    ensures r.Ok? ==> r.value.size == size && offset + size <= |file|
  {
    hide *;
    if offset + size > |file| then Err(MetadataRecoveryRequired)
    else BodyOf(x, file[offset..offset + size], alg, uuid)
  }

  // ---- what a header is ----

  function Two(k: nat): nat {
    if k == 0 then 1 else 2 * Two(k - 1)
  }

  ghost predicate IsPower(n: nat) {
    exists k: nat :: n == Two(k)
  }

  lemma {:induction false} PowerIs(n: nat)
    ensures PowerOfTwo(n) <==> IsPower(n)
    decreases n
  {
    if n == 1 {
      assert n == Two(0);
    } else if n > 1 && n % 2 == 0 {
      PowerIs(n / 2);
      if IsPower(n / 2) {
        var k: nat :| n / 2 == Two(k);
        assert n == Two(k + 1);
      }
      if IsPower(n) {
        var k: nat :| n == Two(k);
        assert k > 0;
        assert n / 2 == Two(k - 1);
      }
    } else {
      forall k: nat ensures Two(k) == 1 || (Two(k) > 0 && Two(k) % 2 == 0) {
        TwoShape(k);
      }
    }
  }

  lemma {:induction false} TwoShape(k: nat)
    ensures Two(k) > 0 && (Two(k) == 1 || Two(k) % 2 == 0)
  {
    if k > 0 {
      TwoShape(k - 1);
      var m := Two(k - 1);
      assert Two(k) == 2 * m;
    }
  }

  /** A field that holds zero-padded text. */
  ghost predicate HoldsText(x: Codecs, b: seq<Byte>, s: string) {
    exists t :: PaddedIs(b, t) && x.utf8(t) == Some(s)
  }

  lemma TextHeld(x: Codecs, b: seq<Byte>, s: string)
    ensures CString(x, b) == Ok(s) <==> HoldsText(x, b, s)
  {
    hide PaddedIs, Padded;
    forall t ensures Padded(b) == Some(t) <==> PaddedIs(b, t) {
      PaddedIsPadded(b, t);
    }
  }

  /** An area that holds the zero-padded text of a strict document. */
  ghost predicate HoldsJson(x: Codecs, b: seq<Byte>, v: Json.Value) {
    exists t, raw ::
      PaddedIs(b, t) && x.tokens(t) == Some(raw) && Json.StrictTree(raw) && v == Json.Denote(raw)
  }

  lemma JsonHeld(x: Codecs, b: seq<Byte>, v: Json.Value)
    ensures JsonOf(x, b) == Ok(v) <==> HoldsJson(x, b, v)
  {
    hide PaddedIs, Padded, Json.StrictTree, Json.Denote;
    forall t ensures Padded(b) == Some(t) <==> PaddedIs(b, t) {
      PaddedIsPadded(b, t);
    }
  }

  /** The checksum of the block, with its own 64 bytes cleared, under the hash the block names. */
  ghost predicate HoldsChecksum(x: Codecs, b: seq<Byte>, alg: Hash)
    requires 4096 <= |b|
  {
    var n := if alg == Sha256 then 32 else 64;
    && HoldsText(x, b[72..104], if alg == Sha256 then "sha256" else "sha512")
    && Zero(b[448 + n..512])
    && x.prims.hash(alg, b[..448] + seq(64, _ => 0) + b[512..]) == b[448..448 + n]
  }

  lemma ChecksumHeld(x: Codecs, b: seq<Byte>, alg: Hash)
    requires 4096 <= |b|
    ensures AlgOf(x, b) == Ok(alg) && Signed(x, b, alg) <==> HoldsChecksum(x, b, alg)
  {
    hide CString, HoldsText;
    TextHeld(x, b[72..104], if alg == Sha256 then "sha256" else "sha512");
  }

  /** A header at `offset`, on a block of exactly its size, in no order. */
  ghost predicate IsHeader(x: Codecs, b: seq<Byte>, offset: nat, h: Header) {
    && |b| == h.size && 16384 <= h.size <= 4194304 && IsPower(h.size)
    && b[..6] == (if offset == 0 then [0x4c, 0x55, 0x4b, 0x53, 0xba, 0xbe] else [0x53, 0x4b, 0x55, 0x4c, 0xba, 0xbe])
    && b[6..8] == [0, 2]
    && Be(b[8..16]) == h.size && Be(b[16..24]) == h.seqno && Be(b[256..264]) == offset
    && (offset == 0 || offset == h.size)
    && Zero(b[264..448]) && Zero(b[512..4096])
    && HoldsText(x, b[24..72], h.name) && HoldsText(x, b[208..256], h.subsystem)
    && HoldsText(x, b[168..208], h.uuid) && x.isUuid(h.uuid)
    && HoldsJson(x, b[4096..], h.json)
    && exists alg :: HoldsChecksum(x, b, alg)
  }

  function AlgOf(x: Codecs, b: seq<Byte>): Result<Hash>
    requires FIXED <= |b|
  {
    var name :- CString(x, b[72..104]);
    HashParse(name)
  }

  /** The same conditions as the program checks them. */
  ghost predicate Checked(x: Codecs, b: seq<Byte>, offset: nat, h: Header) {
    && |b| == h.size && HeaderSize(h.size)
    && b[..6] == Magic(offset) && b[6..8] == [0, 2] && Be(b[8..16]) == h.size
    && Be(b[256..264]) == offset && offset in {0, h.size}
    && Be(b[16..24]) == h.seqno
    && Zero(b[264..448]) && Zero(b[512..FIXED])
    && CString(x, b[24..72]) == Ok(h.name) && CString(x, b[208..256]) == Ok(h.subsystem)
    && CString(x, b[168..208]) == Ok(h.uuid) && x.isUuid(h.uuid)
    && JsonOf(x, b[FIXED..]) == Ok(h.json)
    && exists alg :: AlgOf(x, b) == Ok(alg) && Signed(x, b, alg)
  }

  lemma CheckedIsHeader(x: Codecs, b: seq<Byte>, offset: nat, h: Header)
    ensures Checked(x, b, offset, h) <==> IsHeader(x, b, offset, h)
  {
    hide PowerOfTwo, Zero, CString, JsonOf, HoldsText, HoldsJson, HoldsChecksum, AlgOf, Signed, Be, IsPower;
    PowerIs(h.size);
    assert Magic(offset)
        == if offset == 0 then [0x4c, 0x55, 0x4b, 0x53, 0xba, 0xbe] else [0x53, 0x4b, 0x55, 0x4c, 0xba, 0xbe];
    if 4096 <= |b| {
      TextHeld(x, b[24..72], h.name);
      TextHeld(x, b[208..256], h.subsystem);
      TextHeld(x, b[168..208], h.uuid);
      JsonHeld(x, b[4096..], h.json);
      forall alg ensures AlgOf(x, b) == Ok(alg) && Signed(x, b, alg) <==> HoldsChecksum(x, b, alg) {
        ChecksumHeld(x, b, alg);
      }
      SizesAre(h.size);
    }
  }

  lemma SizesAre(n: nat)
    ensures HeaderSize(n) <==> 16384 <= n <= 4194304 && PowerOfTwo(n)
  {
    hide PowerOfTwo;
  }

  /** Reading in the order of the program finds exactly the headers there are. */
  lemma HeaderAtIsHeader(x: Codecs, file: seq<Byte>, offset: nat, h: Header)
    requires |file| < U64_LIMIT
    ensures HeaderAt(x, file, offset) == Ok(h)
       <==> offset + h.size <= |file| && IsHeader(x, file[offset..offset + h.size], offset, h)
  {
    hide IsHeader, Checked;
    if offset + h.size <= |file| {
      CheckedIsHeader(x, file[offset..offset + h.size], offset, h);
    }
    HeaderAtIsChecked(x, file, offset, h);
  }

  lemma HeaderAtIsChecked(x: Codecs, file: seq<Byte>, offset: nat, h: Header)
    requires |file| < U64_LIMIT
    ensures HeaderAt(x, file, offset) == Ok(h)
       <==> offset + h.size <= |file| && Checked(x, file[offset..offset + h.size], offset, h)
  {
    hide PowerOfTwo, Padded, Zero, HashSize, CString, Unsigned, Signed, Be, HashParse, Json.StrictTree;
    if offset + h.size <= |file| && HeaderSize(h.size) {
      var b := file[offset..offset + h.size];
      FieldsOfBlock(file, offset, h.size);
      if HeaderAt(x, file, offset) == Ok(h) {
        assert Checked(x, b, offset, h);
      }
      if Checked(x, b, offset, h) {
        assert HeaderAt(x, file, offset) == Ok(h);
      }
    }
  }

  lemma FieldsOfBlock(file: seq<Byte>, offset: nat, size: nat)
    requires FIXED <= size && offset + size <= |file|
    ensures var b, f := file[offset..offset + size], file[offset..offset + FIXED];
      && f == b[..FIXED] && f[..6] == b[..6] && f[512..] == b[512..FIXED]
      && forall i, j :: 0 <= i <= j <= FIXED ==> f[i..j] == b[i..j]
  {
  }

  // ---- reading from the open image ----

  /** One read of the image into `buf`. */
  method Fetch(image: Image, offset: u64, buf: array<Byte>) returns (e: Ended<()>)
    requires image.Valid()
    modifies image`plan, buf
    ensures e == Done(Ok(())) ==>
      InFile(image.len, offset, buf.Length) && buf[..] == image.disk.visible[offset..offset + buf.Length]
    ensures e == Done(Ok(())) || (e == Done(Err(InvalidRange)) && !InFile(image.len, offset, buf.Length))
      || (Broke(old(image.plan), image.plan) && (e.Panicked? || e == Done(Err(BackendIo))))
    ensures Advanced(old(image.plan), image.plan)
  {
    hide ReadExact, Failing, Calms, Sound;
    ReadOutcome(image.len, image.disk, offset, buf.Length, image.plan);
    var r, _ := image.ReadExactAt(offset, buf);
    return r;
  }

  /** Reads a header; what it finds is the header there is, unless a call went wrong. */
  method ReadHeader(x: Codecs, image: Image, offset: u64) returns (e: Ended<Header>)
    requires image.Valid()
    modifies image`plan
    ensures e == Done(HeaderAt(x, image.disk.visible, offset))
      || (Broke(old(image.plan), image.plan) && (e.Panicked? || e == Done(Err(MetadataRecoveryRequired))))
    ensures Advanced(old(image.plan), image.plan)
  {
    hide FixedOf, BodyOf, Sound, Failing, Calms;
    ghost var file := image.disk.visible;
    var fixed := new Byte[FIXED];
    var first := Fetch(image, offset, fixed);
    if first.Panicked? {
      return Panicked;
    }
    if first.result.Err? {
      return Done(Err(MetadataRecoveryRequired));
    }
    var parsed := FixedOf(x, fixed[..], offset);
    if parsed.Err? {
      return Done(Err(parsed.error));
    }
    var size, alg, uuid := parsed.value.0, parsed.value.1, parsed.value.2;
    var data := new Byte[size];
    var second := Fetch(image, offset, data);
    if second.Panicked? {
      return Panicked;
    }
    if second.result.Err? {
      return Done(Err(MetadataRecoveryRequired));
    }
    FieldsOfBlock(file, offset, size);
    e := Body(x, fixed, data, alg, uuid);
  }

  /** The checks on the whole header; the checksum field is cleared in the buffer first. */
  method Body(x: Codecs, fixed: array<Byte>, data: array<Byte>, alg: Hash, uuid: string) returns (e: Ended<Header>)
    requires fixed != data && fixed.Length == FIXED && FIXED <= data.Length < U64_LIMIT && fixed[..] == data[..FIXED]
    modifies data
    ensures e == Done(BodyOf(x, old(data[..]), alg, uuid))
  {
    hide Padded, CString, Json.StrictTree, Json.Denote;
    ghost var b := data[..];
    var expected := data[448..448 + HashSize(alg)];
    if !Zero(data[448 + HashSize(alg)..512]) {
      return Done(Err(MetadataRecoveryRequired));
    }
    forall i | 448 <= i < 512 {
      data[i] := 0;
    }
    assert data[..] == Unsigned(b);
    if x.prims.hash(alg, data[..]) != expected {
      return Done(Err(MetadataRecoveryRequired));
    }
    assert data[FIXED..] == b[FIXED..];
    var text := Padded(data[FIXED..]);
    if text.None? {
      return Done(Err(MetadataInvalid));
    }
    assert fixed[24..72] == b[24..72] && fixed[208..256] == b[208..256] && fixed[16..24] == b[16..24];
    var name := CString(x, fixed[24..72]);
    if name.Err? {
      return Done(Err(name.error));
    }
    var subsystem := CString(x, fixed[208..256]);
    if subsystem.Err? {
      return Done(Err(subsystem.error));
    }
    var raw := x.tokens(text.value);
    if raw.None? {
      return Done(Err(MetadataInvalid));
    }
    var json := Json.Parse(raw.value);
    if json.Err? {
      return Done(Err(json.error));
    }
    return Done(Ok(Header(data.Length, Be(fixed[16..24]), uuid, name.value, subsystem.value, json.value)));
  }

  /** Both headers of the file say the same, and the document in them is accepted. */
  ghost predicate Describes(x: Codecs, file: seq<Byte>, h: Header, d: Document, m: Metadata)
    requires |file| < U64_LIMIT
  {
    && HeaderAt(x, file, 0) == Ok(h) && HeaderAt(x, file, h.size) == Ok(h)
    && Accepts(x.b64, h.json, h.size, |file|, d, m)
  }

  ghost predicate IsMetadata(x: Codecs, file: seq<Byte>, m: Metadata)
    requires |file| < U64_LIMIT
  {
    exists h, d :: Describes(x, file, h, d, m)
  }

  /**
   `Metadata::read`: what it returns is the metadata of the file, and if there is any it is
   found, unless the last call went wrong.
   */
  method ReadMetadata(x: Codecs, image: Image) returns (e: Ended<Metadata>)
    requires image.Valid()
    modifies image`plan
    ensures e.Done? && e.result.Ok? ==> IsMetadata(x, image.disk.visible, e.result.value)
    ensures Advanced(old(image.plan), image.plan)
    ensures Broke(old(image.plan), image.plan)
      || (e.Done? && (e.result.Ok? <==> exists m :: IsMetadata(x, image.disk.visible, m)))
  {
    hide HeaderAt, Accepts, Failing, Calms;
    var a := ReadHeader(x, image, 0);
    if a.Panicked? {
      return Panicked;
    }
    if a.result.Err? {
      return Done(Err(a.result.error));
    }
    var h := a.result.value;
    var b := ReadHeader(x, image, h.size);
    if b.Panicked? {
      return Panicked;
    }
    if b.result.Err? {
      return Done(Err(b.result.error));
    }
    if h != b.result.value {
      return Done(Err(MetadataRecoveryRequired));
    }
    var m := Parsing.FromJson(x.b64, h.json, h.size, image.len);
    if m.Err? {
      return Done(Err(m.error));
    }
    ghost var d :| Accepts(x.b64, h.json, h.size, image.len, d, m.value);
    assert Describes(x, image.disk.visible, h, d, m.value);
    return Done(Ok(m.value));
  }
}
