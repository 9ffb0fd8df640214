/**
 The checks of `from_json` in `src/metadata.rs`, one object at a time, and what they come to
 together in whatever order the objects are visited. What the checks accept, field by field,
 is said in module Documents.
 */
module Metadata {
  import opened Basics
  import opened Json
  import opened AntiForensic
  import opened Fields
  import D = Decimal

  datatype Area = Area(keySize: nat, areaKeySize: nat, start: nat, size: nat)
  datatype Key = Key(area: Area, afHash: Hash, kdf: Kdf)
  datatype Segment = Segment(id: u32, offset: nat, length: nat)
  datatype Digest = Digest(kdf: Kdf, digest: seq<Byte>, bound: bool, keyslots: seq<u32>)
  datatype Slot = Slot(keySize: nat, areaKeySize: nat, areaOffset: nat, afHash: Hash, kdf: Kdf, digestKdf: Kdf,
      digest: seq<Byte>)
  datatype Metadata = Metadata(offset: nat, length: nat, slots: map<u32, Slot>)

  const MAX_ID: u32 := 31
  const MIB: nat := 0x10_0000

  // ---- one object at a time ----

  /** The config object: the size of the keyslot region. */
  function ConfigOf(root: Obj, hdr: nat): (r: Result<nat>)
    requires hdr >= 4096
    ensures r.Ok? ==> r.value <= 128 * MIB && r.value % 4096 == 0
  {
    var config :- ObjectAt(root, "config");
    var _ :- Only(config, {"json_size", "keyslots_size", "flags", "requirements"});
    var jsonSize :- DecimalAt(config, "json_size");
    var _ :- Need(jsonSize == hdr - 4096, MetadataInvalid);
    var _ :- NoneListed(config, "flags");
    var _ :- RequirementsOf(config);
    var n :- DecimalAt(config, "keyslots_size");
    if n > 128 * MIB || n % 4096 != 0 then Err(ResourceLimit) else Ok(n)
  }

  function RequirementsOf(config: Obj): Result<()> {
    if "requirements" !in config then Ok(())
    else
      var o :- AsObject(config["requirements"]);
      var _ :- Only(o, {"mandatory"});
      if "mandatory" !in o then Ok(())
      else
        var items :- AsArray(o["mandatory"]);
        var _ :- NoReencryption(items);
        Need(items == [], UnsupportedProfile)
  }

  /** The first look at a segment, before their number is checked. */
  function SegmentFlags(v: Value): Result<()> {
    var o :- AsObject(v);
    if "flags" !in o then Ok(())
    else
      var items :- AsArray(o["flags"]);
      NoReencryption(items)
  }

  /** The data segment: whole sectors behind the keyslot region and inside the image. */
  function SegmentOf(name: string, v: Value, areaEnd: nat, imageLen: u64): (r: Result<Segment>)
    ensures r.Ok? ==>
      && areaEnd <= r.value.offset && r.value.offset % 512 == 0
      && 0 < r.value.length && r.value.length % 512 == 0
      && r.value.offset + r.value.length <= imageLen
  {
    var id :- D.Id(name, MAX_ID);
    var seg :- AsObject(v);
    var _ :- Only(seg, {"type", "offset", "size", "iv_tweak", "encryption", "sector_size", "flags"});
    var kind :- TextAt(seg, "type");
    var _ :- Need(kind == "crypt", UnsupportedProfile);
    var encryption :- TextAt(seg, "encryption");
    var _ :- Need(encryption == "aes-xts-plain64", UnsupportedProfile);
    var sector :- NumberAt(seg, "sector_size");
    var _ :- Need(sector == 512, UnsupportedProfile);
    var tweak :- DecimalAt(seg, "iv_tweak");
    var _ :- Need(tweak == 0, UnsupportedProfile);
    var _ :- NoneListed(seg, "flags");
    var offset :- DecimalAt(seg, "offset");
    if offset < areaEnd || offset > imageLen || offset % 512 != 0 then Err(MetadataInvalid)
    else
      var size :- TextAt(seg, "size");
      var length :- if size == "dynamic" then Ok(imageLen - offset) else D.Parse(size);
      if length == 0 || length > imageLen - offset || length % 512 != 0 then Err(MetadataInvalid)
      else Ok(Segment(id, offset, length))
  }

  predicate KeyLength(n: nat) { n == 32 || n == 64 }

  /** The keyslot area: it lies in the keyslot region and has room for all stripes. */
  function AreaOf(o: Obj, lo: nat, hi: nat): (r: Result<Area>)
    requires hi < U64_LIMIT
    ensures r.Ok? ==> AreaFits(r.value, lo, hi)
  {
    var kind :- TextAt(o, "type");
    var _ :- Need(kind != "reencrypt", ReencryptionUnsupported);
    var _ :- Only(o, {"type", "key_size", "area", "kdf", "af", "priority"});
    var _ :- Need(kind == "luks2", UnsupportedProfile);
    var _ :- PriorityOf(o);
    var keySize :- NumberAt(o, "key_size");
    var area :- ObjectAt(o, "area");
    var _ :- Only(area, {"type", "offset", "size", "encryption", "key_size"});
    var areaKeySize :- NumberAt(area, "key_size");
    var _ :- Need(KeyLength(keySize) && KeyLength(areaKeySize), UnsupportedProfile);
    var areaType :- TextAt(area, "type");
    var _ :- Need(areaType == "raw", UnsupportedProfile);
    var encryption :- TextAt(area, "encryption");
    var _ :- Need(encryption == "aes-xts-plain64", UnsupportedProfile);
    var start :- DecimalAt(area, "offset");
    var size :- DecimalAt(area, "size");
    var _ :- Need(start + size < U64_LIMIT, MetadataInvalid);
    var _ :- Need(size <= 64 * MIB, ResourceLimit);
    if size < keySize * STRIPES || start < lo || start + size > hi || start % 4096 != 0 || size % 4096 != 0
    then Err(MetadataInvalid)
    else Ok(Area(keySize, areaKeySize, start, size))
  }

  predicate AreaFits(a: Area, lo: nat, hi: nat) {
    && KeyLength(a.keySize) && KeyLength(a.areaKeySize)
    && a.keySize * STRIPES <= a.size && lo <= a.start && a.start + a.size <= hi
  }

  function PriorityOf(o: Obj): Result<()> {
    if "priority" !in o then Ok(())
    else
      var p :- AsU64(o["priority"]);
      Need(p <= 2, MetadataInvalid)
  }

  /** What a keyslot says besides its area. */
  function SecretOf(b64: Base64, o: Obj): (r: Result<(Kdf, Hash)>)
    ensures r.Ok? ==> Affordable(r.value.0)
  {
    var af :- ObjectAt(o, "af");
    var _ :- Only(af, {"type", "stripes", "hash"});
    var kind :- TextAt(af, "type");
    var _ :- Need(kind == "luks1", UnsupportedProfile);
    var stripes :- NumberAt(af, "stripes");
    var _ :- Need(stripes == STRIPES, UnsupportedProfile);
    var kdfObject :- ObjectAt(o, "kdf");
    var kdf :- KdfOf(b64, kdfObject);
    var name :- TextAt(af, "hash");
    var hash :- HashParse(name);
    Ok((kdf, hash))
  }

  function KeyOf(b64: Base64, v: Value, lo: nat, hi: nat): (r: Result<Key>)
    requires hi < U64_LIMIT
    ensures r.Ok? ==> AreaFits(r.value.area, lo, hi) && Affordable(r.value.kdf)
  {
    var o :- AsObject(v);
    var area :- AreaOf(o, lo, hi);
    var secret :- SecretOf(b64, o);
    Ok(Key(area, secret.1, secret.0))
  }

  /** The parameters of a digest: its size fits its hash, or is the 20 bytes of older ones. */
  function DigestHead(b64: Base64, o: Obj): (r: Result<(Kdf, seq<Byte>)>)
    ensures r.Ok? ==> Affordable(r.value.0) && (|r.value.1| == 20 || |r.value.1| == 32 || |r.value.1| == 64)
  {
    var _ :- Only(o, {"type", "keyslots", "segments", "hash", "iterations", "salt", "digest"});
    var kind :- TextAt(o, "type");
    var _ :- Need(kind == "pbkdf2", UnsupportedProfile);
    var digest :- Base64At(b64, o, "digest");
    var salt :- Base64At(b64, o, "salt");
    var name :- TextAt(o, "hash");
    var hash :- HashParse(name);
    var _ :- Need(|salt| == 32 && (|digest| == 20 || |digest| == HashSize(hash)), MetadataInvalid);
    var iterations :- Bounded(o, "iterations", 10_000_000);
    Ok((Pbkdf2(hash, iterations, salt), digest))
  }

  // ---- what is accepted ----

  /** The list of distinct canonical ids under `k`. */
  ghost function IdList(o: Obj, k: string): Option<seq<u32>> {
    if k in o && o[k].Array? && IdsOf(o[k].items, MAX_ID).Some? && Distinct(IdsOf(o[k].items, MAX_ID).value)
    then IdsOf(o[k].items, MAX_ID) else None
  }

  /** A digest lists keyslots, and either no segment or the one there is. */
  ghost function DigestOf(b64: Base64, v: Value, segment: u32): Option<Digest> {
    if !v.Object? || DigestHead(b64, v.fields).Err? then None
    else if IdList(v.fields, "segments").None? || IdList(v.fields, "keyslots").None? then None
    else if exists s :: s in IdList(v.fields, "segments").value && s != segment then None
    else
      var head := DigestHead(b64, v.fields).value;
      Some(Digest(head.0, head.1, IdList(v.fields, "segments").value != [], IdList(v.fields, "keyslots").value))
  }

  predicate Disjoint(a: Area, b: Area) {
    a.start + a.size <= b.start || b.start + b.size <= a.start
  }

  /** Every name is a canonical id, every keyslot is good, and no two areas meet. */
  ghost predicate KeysOk(b64: Base64, keys: Obj, lo: nat, hi: nat)
    requires hi < U64_LIMIT
  {
    && (forall k :: k in keys ==> D.Id(k, MAX_ID).Ok? && KeyOf(b64, keys[k], lo, hi).Ok?)
    && (forall j, k :: j in keys && k in keys && j != k ==>
          Disjoint(KeyOf(b64, keys[j], lo, hi).value.area, KeyOf(b64, keys[k], lo, hi).value.area))
  }

  /** The keyslots by number. */
  ghost function KeysByNumber(b64: Base64, keys: Obj, lo: nat, hi: nat): (m: map<u32, Key>)
    requires hi < U64_LIMIT && KeysOk(b64, keys, lo, hi)
  {
    map n: u32 | n <= MAX_ID && D.Print(n) in keys :: KeyOf(b64, keys[D.Print(n)], lo, hi).value
  }

  /** Digest `d` binds keyslot `n` to the data segment. */
  ghost predicate Binds(b64: Base64, digests: Obj, segment: u32, d: string, n: u32) {
    && d in digests && DigestOf(b64, digests[d], segment).Some?
    && DigestOf(b64, digests[d], segment).value.bound && n in DigestOf(b64, digests[d], segment).value.keyslots
  }

  /** Every digest is good, names only keyslots there are, and no two bind the same one. */
  ghost predicate DigestsOk(b64: Base64, digests: Obj, segment: u32, keys: map<u32, Key>) {
    && (forall d :: d in digests ==> D.Id(d, MAX_ID).Ok? && DigestOf(b64, digests[d], segment).Some?)
    && (forall d, n :: d in digests && n in DigestOf(b64, digests[d], segment).value.keyslots ==> n in keys)
    && (forall c, d, n :: Binds(b64, digests, segment, c, n) && Binds(b64, digests, segment, d, n) ==> c == d)
  }

  function SlotFrom(key: Key, digest: Digest): Slot {
    Slot(key.area.keySize, key.area.areaKeySize, key.area.start, key.afHash, key.kdf, digest.kdf, digest.digest)
  }

  /** `slots` holds exactly the bound keyslots, each with its own parameters and those of its digest. */
  ghost predicate SlotsAre(b64: Base64, digests: Obj, segment: u32, keys: map<u32, Key>, slots: map<u32, Slot>) {
    && (forall n :: n in slots <==> n in keys && exists d :: Binds(b64, digests, segment, d, n))
    && (forall n, d :: n in slots && n in keys && Binds(b64, digests, segment, d, n) ==>
          slots[n] == SlotFrom(keys[n], DigestOf(b64, digests[d], segment).value))
  }

  ghost predicate TokensOk(tokens: Obj) {
    forall t :: t in tokens ==> D.Id(t, MAX_ID).Ok? && tokens[t].Object?
  }

  const PARTS: set<string> := {"keyslots", "tokens", "segments", "digests", "config"}

  /** The five parts are there and nothing else; four of them are read as objects here. */
  ghost predicate RootOk(v: Value) {
    && v.Object? && v.fields.Keys == PARTS
    && v.fields["keyslots"].Object? && v.fields["tokens"].Object?
    && v.fields["segments"].Object? && v.fields["digests"].Object?
  }

  /** One of the parts read as objects. */
  function Part(v: Value, k: string): Obj {
    if v.Object? && k in v.fields && v.fields[k].Object? then v.fields[k].fields else map[]
  }

  /** Where the keyslot region ends. */
  function AreaEnd(v: Value, hdr: nat): nat
    requires 4096 <= hdr
  {
    2 * hdr + if v.Object? && ConfigOf(v.fields, hdr).Ok? then ConfigOf(v.fields, hdr).value else 0
  }

  /** The one segment, under its name. */
  ghost predicate SegmentIs(v: Value, hdr: nat, imageLen: u64, name: string, segment: Segment)
    requires 4096 <= hdr
  {
    var segments := Part(v, "segments");
    && segments.Keys == {name} && SegmentFlags(segments[name]).Ok?
    && SegmentOf(name, segments[name], AreaEnd(v, hdr), imageLen) == Ok(segment)
  }

  /** Keyslots, tokens and digests are few and good. */
  ghost predicate PartsOk(b64: Base64, v: Value, lo: nat, hi: u64, segment: u32) {
    && |Part(v, "keyslots")| <= 32 && KeysOk(b64, Part(v, "keyslots"), lo, hi)
    && |Part(v, "tokens")| <= 32 && TokensOk(Part(v, "tokens"))
    && |Part(v, "digests")| <= 32
    && DigestsOk(b64, Part(v, "digests"), segment, KeysByNumber(b64, Part(v, "keyslots"), lo, hi))
  }

  /** Everything the checks ask for, in no order. `name` is the name of the one segment. */
  ghost predicate Passes(b64: Base64, v: Value, hdr: nat, imageLen: u64, name: string, segment: Segment, m: Metadata)
    requires 4096 <= hdr
  {
    && RootOk(v) && ConfigOf(v.fields, hdr).Ok? && AreaEnd(v, hdr) < U64_LIMIT
    && SegmentIs(v, hdr, imageLen, name, segment)
    && PartsOk(b64, v, 2 * hdr, AreaEnd(v, hdr), segment.id)
    && m.offset == segment.offset && m.length == segment.length
    && SlotsAre(b64, Part(v, "digests"), segment.id,
      KeysByNumber(b64, Part(v, "keyslots"), 2 * hdr, AreaEnd(v, hdr)), m.slots)
  }
}
