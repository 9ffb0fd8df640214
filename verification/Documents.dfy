/**
 What `from_json` of `src/metadata.rs` accepts, field by field and in no order. Nothing here
 is computed by the parser: module Metadata holds its checks, and the lemmas below say that
 they decide exactly these conditions.
 */
module Documents {
  import opened Basics
  import opened Json
  import opened AntiForensic
  import opened Fields
  import opened Metadata
  import D = Decimal

  // ---- fields ----

  ghost predicate HasText(o: Obj, k: string, s: string) { k in o && o[k] == Text(s) }

  ghost predicate HasNumber(o: Obj, k: string, n: u64) { k in o && o[k] == Number(n) }

  /** A number in its decimal notation. */
  ghost predicate HasDecimal(o: Obj, k: string, n: u64) { k in o && o[k] == Text(D.Print(n)) }

  ghost predicate HasBytes(b64: Base64, o: Obj, k: string, b: seq<Byte>) {
    k in o && o[k].Text? && b64(o[k].s) == Some(b)
  }

  ghost predicate Unlisted(o: Obj, k: string) { k in o ==> o[k] == Array([]) }

  /** A list of distinct ids in decimal notation. */
  ghost predicate HasIds(o: Obj, k: string, ids: seq<u32>) {
    && k in o && o[k].Array? && |o[k].items| == |ids|
    && (forall i :: 0 <= i < |ids| ==> ids[i] <= 31 && o[k].items[i] == Text(D.Print(ids[i])))
    && Distinct(ids)
  }

  function HashName(h: Hash): string {
    if h.Sha256? then "sha256" else "sha512"
  }

  lemma DecimalIs(o: Obj, k: string, n: u64)
    ensures DecimalAt(o, k) == Ok(n) <==> HasDecimal(o, k, n)
  {
    hide D.Parse, D.Print;
    if k in o && o[k].Text? {
      D.ParseInvertsPrint(o[k].s, n);
    }
  }

  lemma UnlistedIs(o: Obj, k: string)
    ensures NoneListed(o, k).Ok? <==> Unlisted(o, k)
  {
  }

  lemma IdIs(name: string, n: u32)
    ensures D.Id(name, MAX_ID) == Ok(n) <==> n <= MAX_ID && name == D.Print(n)
  {
    hide D.Parse, D.Print;
    D.ParseInvertsPrint(name, n);
  }

  lemma {:induction false} IdsAre(items: seq<Value>, ids: seq<u32>)
    ensures IdsOf(items, MAX_ID) == Some(ids) <==>
      |items| == |ids| && forall i :: 0 <= i < |ids| ==> ids[i] <= MAX_ID && items[i] == Text(D.Print(ids[i]))
    decreases |items|
  {
    hide D.Id, D.Print;
    if items != [] && ids != [] {
      var init, last := items[..|items| - 1], items[|items| - 1];
      IdsAre(init, ids[..|ids| - 1]);
      if last.Text? {
        IdIs(last.s, ids[|ids| - 1]);
      }
      assert ids == ids[..|ids| - 1] + [ids[|ids| - 1]];
    }
  }

  lemma IdListIs(o: Obj, k: string, ids: seq<u32>)
    ensures IdList(o, k) == Some(ids) <==> HasIds(o, k, ids)
  {
    hide IdsOf, D.Print;
    if k in o && o[k].Array? {
      IdsAre(o[k].items, ids);
    }
  }

  // ---- key derivation ----

  ghost predicate KdfSpec(b64: Base64, o: Obj, kdf: Kdf) {
    && |kdf.salt| == 32 && HasBytes(b64, o, "salt", kdf.salt)
    && match kdf
       case Pbkdf2(hash, iterations, _) =>
         && o.Keys <= {"type", "hash", "iterations", "salt"}
         && HasText(o, "type", "pbkdf2") && HasText(o, "hash", HashName(hash))
         && HasNumber(o, "iterations", iterations) && 0 < iterations <= 10_000_000
       case Argon2(id, memory, time, cpus, _) =>
         && o.Keys <= {"type", "time", "memory", "cpus", "salt"}
         && HasText(o, "type", if id then "argon2id" else "argon2i")
         && HasNumber(o, "memory", memory) && 0 < memory <= 1_048_576
         && HasNumber(o, "time", time) && 0 < time <= 10
         && HasNumber(o, "cpus", cpus) && 0 < cpus <= 8 && 8 * cpus <= memory
  }

  lemma KdfIsSpec(b64: Base64, o: Obj, kdf: Kdf)
    ensures KdfOf(b64, o) == Ok(kdf) <==> KdfSpec(b64, o, kdf)
  {
  }

  // ---- config and segment ----

  ghost predicate RequirementsSpec(o: Obj) {
    "requirements" in o ==>
      && o["requirements"].Object? && o["requirements"].fields.Keys <= {"mandatory"}
      && Unlisted(o["requirements"].fields, "mandatory")
  }

  /** The config names the size of the JSON area and of the keyslot region, and asks for nothing else. */
  ghost predicate ConfigSpec(o: Obj, hdr: nat, region: nat)
    requires 4096 <= hdr
  {
    && o.Keys <= {"json_size", "keyslots_size", "flags", "requirements"}
    && hdr - 4096 < U64_LIMIT && HasDecimal(o, "json_size", hdr - 4096)
    && Unlisted(o, "flags") && RequirementsSpec(o)
    && region <= 128 * 1048576 && region % 4096 == 0 && HasDecimal(o, "keyslots_size", region)
  }

  lemma RequirementsIsSpec(o: Obj)
    ensures RequirementsOf(o).Ok? <==> RequirementsSpec(o)
  {
  }

  lemma ConfigIsSpec(root: Obj, hdr: nat, region: nat)
    requires hdr >= 4096
    ensures ConfigOf(root, hdr) == Ok(region) <==>
      "config" in root && root["config"].Object? && ConfigSpec(root["config"].fields, hdr, region)
  {
    hide DecimalAt, HasDecimal, RequirementsOf, RequirementsSpec, NoneListed, Unlisted;
    if "config" in root && root["config"].Object? {
      var o := root["config"].fields;
      if hdr - 4096 < U64_LIMIT {
        DecimalIs(o, "json_size", hdr - 4096);
      }
      if region < U64_LIMIT {
        DecimalIs(o, "keyslots_size", region);
      }
      RequirementsIsSpec(o);
      UnlistedIs(o, "flags");
    }
  }

  /** A data segment in whole 512-byte sectors of aes-xts-plain64 with no tweak, behind the keyslot region. */
  ghost predicate SegmentSpec(v: Value, areaEnd: nat, imageLen: u64, y: Segment) {
    && v.Object?
    && var o := v.fields;
    && o.Keys <= {"type", "offset", "size", "iv_tweak", "encryption", "sector_size", "flags"}
    && HasText(o, "type", "crypt") && HasText(o, "encryption", "aes-xts-plain64")
    && HasNumber(o, "sector_size", 512) && HasDecimal(o, "iv_tweak", 0) && Unlisted(o, "flags")
    && areaEnd <= y.offset <= imageLen && y.offset % 512 == 0 && HasDecimal(o, "offset", y.offset)
    && 0 < y.length <= imageLen - y.offset && y.length % 512 == 0
    && ((HasText(o, "size", "dynamic") && y.length == imageLen - y.offset) || HasDecimal(o, "size", y.length))
  }

  lemma SegmentIsSpec(name: string, v: Value, areaEnd: nat, imageLen: u64, y: Segment)
    ensures SegmentOf(name, v, areaEnd, imageLen) == Ok(y) <==>
      y.id <= MAX_ID && name == D.Print(y.id) && SegmentSpec(v, areaEnd, imageLen, y)
  {
    hide DecimalAt, HasDecimal, NoneListed, Unlisted, D.Parse, D.Print, D.Id;
    IdIs(name, y.id);
    if v.Object? {
      var o := v.fields;
      DecimalIs(o, "iv_tweak", 0);
      UnlistedIs(o, "flags");
      if y.offset < U64_LIMIT && y.length < U64_LIMIT {
        DecimalIs(o, "offset", y.offset);
        SizeIs(o, y.length);
      }
    }
  }

  /** The size is the word for the rest of the image or a number, and never both. */
  lemma SizeIs(o: Obj, n: u64)
    ensures HasDecimal(o, "size", n) <==> TextAt(o, "size").Ok? && D.Parse(TextAt(o, "size").value) == Ok(n)
    ensures HasDecimal(o, "size", n) ==> TextAt(o, "size").value != "dynamic"
  {
    hide D.Parse, D.Print;
    DecimalIs(o, "size", n);
    assert !D.IsDigit("dynamic"[0]);
    if HasDecimal(o, "size", n) {
      assert D.AllDigits(D.Print(n));
    }
  }

  /** A scan for reencryption never refuses what has no flags. */
  lemma UnlistedFlags(v: Value)
    requires v.Object? && Unlisted(v.fields, "flags")
    ensures SegmentFlags(v).Ok?
  {
  }

  // ---- keyslots ----

  ghost predicate PrioritySpec(o: Obj) {
    "priority" in o ==> o["priority"].Number? && 0 <= o["priority"].n <= 2
  }

  ghost predicate AreaSpec(area: Obj, lo: nat, hi: u64, keySize: u64, y: Area) {
    && area.Keys <= {"type", "offset", "size", "encryption", "key_size"}
    && HasText(area, "type", "raw") && HasText(area, "encryption", "aes-xts-plain64")
    && y.keySize == keySize && keySize in {32, 64} && y.areaKeySize in {32, 64}
      && HasNumber(area, "key_size", y.areaKeySize)
    && lo <= y.start && y.start + y.size <= hi && y.start % 4096 == 0 && y.size % 4096 == 0
    && keySize * 4000 <= y.size <= 64 * 1048576
    && HasDecimal(area, "offset", y.start) && HasDecimal(area, "size", y.size)
  }

  ghost predicate AfSpec(af: Obj, h: Hash) {
    && af.Keys <= {"type", "stripes", "hash"}
    && HasText(af, "type", "luks1") && HasNumber(af, "stripes", 4000) && HasText(af, "hash", HashName(h))
  }

  /** A keyslot of the one supported kind, whose area lies in the region and has room for its stripes. */
  ghost predicate KeyslotSpec(b64: Base64, v: Value, lo: nat, hi: u64, y: Key) {
    && v.Object?
    && var o := v.fields;
    && o.Keys <= {"type", "key_size", "area", "kdf", "af", "priority"}
    && HasText(o, "type", "luks2") && PrioritySpec(o)
    && y.area.keySize < U64_LIMIT && HasNumber(o, "key_size", y.area.keySize)
    && "area" in o && o["area"].Object? && AreaSpec(o["area"].fields, lo, hi, y.area.keySize, y.area)
    && "af" in o && o["af"].Object? && AfSpec(o["af"].fields, y.afHash)
    && "kdf" in o && o["kdf"].Object? && KdfSpec(b64, o["kdf"].fields, y.kdf)
  }

  lemma PriorityIsSpec(o: Obj)
    ensures PriorityOf(o).Ok? <==> PrioritySpec(o)
  {
  }

  lemma AreaIsSpec(o: Obj, lo: nat, hi: u64, y: Area)
    ensures AreaOf(o, lo, hi) == Ok(y) <==>
      && o.Keys <= {"type", "key_size", "area", "kdf", "af", "priority"}
      && HasText(o, "type", "luks2") && PrioritySpec(o)
      && y.keySize < U64_LIMIT && HasNumber(o, "key_size", y.keySize)
      && "area" in o && o["area"].Object? && AreaSpec(o["area"].fields, lo, hi, y.keySize, y)
  {
    hide DecimalAt, HasDecimal, PriorityOf, PrioritySpec;
    PriorityIsSpec(o);
    if "area" in o && o["area"].Object? && y.start < U64_LIMIT && y.size < U64_LIMIT {
      DecimalIs(o["area"].fields, "offset", y.start);
      DecimalIs(o["area"].fields, "size", y.size);
    }
  }

  lemma SecretIsSpec(b64: Base64, o: Obj, kdf: Kdf, h: Hash)
    ensures SecretOf(b64, o) == Ok((kdf, h)) <==>
      && "af" in o && o["af"].Object? && AfSpec(o["af"].fields, h)
      && "kdf" in o && o["kdf"].Object? && KdfSpec(b64, o["kdf"].fields, kdf)
  {
    hide KdfOf, KdfSpec;
    if "kdf" in o && o["kdf"].Object? {
      KdfIsSpec(b64, o["kdf"].fields, kdf);
    }
  }

  lemma KeyslotIsSpec(b64: Base64, v: Value, lo: nat, hi: u64, y: Key)
    ensures KeyOf(b64, v, lo, hi) == Ok(y) <==> KeyslotSpec(b64, v, lo, hi, y)
  {
    hide AreaOf, SecretOf, AreaSpec, AfSpec, KdfSpec, PrioritySpec;
    if v.Object? {
      AreaIsSpec(v.fields, lo, hi, y.area);
      SecretIsSpec(b64, v.fields, y.kdf, y.afHash);
    }
  }

  // ---- digests ----

  /** A digest of the one supported kind over keyslots and, if it binds them, the one segment. */
  ghost predicate DigestSpec(b64: Base64, v: Value, segment: u32, y: Digest) {
    && v.Object?
    && HeadSpec(b64, v.fields, y.kdf, y.digest)
    && HasIds(v.fields, "segments", if y.bound then [segment] else []) && HasIds(v.fields, "keyslots", y.keyslots)
  }

  ghost predicate HeadSpec(b64: Base64, o: Obj, kdf: Kdf, digest: seq<Byte>) {
    && o.Keys <= {"type", "keyslots", "segments", "hash", "iterations", "salt", "digest"}
    && HasText(o, "type", "pbkdf2") && kdf.Pbkdf2?
    && HasText(o, "hash", HashName(kdf.hash))
    && HasNumber(o, "iterations", kdf.iterations) && 0 < kdf.iterations <= 10_000_000
    && HasBytes(b64, o, "salt", kdf.salt) && |kdf.salt| == 32
    && HasBytes(b64, o, "digest", digest) && (|digest| == 20 || |digest| == HashSize(kdf.hash))
  }

  lemma HeadIsSpec(b64: Base64, o: Obj, kdf: Kdf, digest: seq<Byte>)
    ensures DigestHead(b64, o) == Ok((kdf, digest)) <==> HeadSpec(b64, o, kdf, digest)
  {
  }

  lemma DigestIsSpec(b64: Base64, v: Value, segment: u32, y: Digest)
    ensures DigestOf(b64, v, segment) == Some(y) <==> DigestSpec(b64, v, segment, y)
  {
    hide DigestHead, HeadSpec, IdList, HasIds;
    if v.Object? {
      var o := v.fields;
      HeadIsSpec(b64, o, y.kdf, y.digest);
      IdListIs(o, "segments", if y.bound then [segment] else []);
      IdListIs(o, "keyslots", y.keyslots);
      if IdList(o, "segments").Some? {
        OneSegment(o, segment, IdList(o, "segments").value);
      }
    }
  }

  /** Distinct ids that are all the one segment are that segment or none. */
  lemma OneSegment(o: Obj, segment: u32, ids: seq<u32>)
    requires IdList(o, "segments") == Some(ids)
    ensures (exists s :: s in ids && s != segment) || ids == [] || ids == [segment]
  {
    hide IdsOf;
    if ids != [] {
      assert ids[0] in ids;
      if |ids| > 1 {
        assert ids[1] in ids && ids[0] != ids[1];
      } else {
        assert ids == [ids[0]];
      }
    }
  }

  // ---- the document ----

  /** What a document says: the size of its keyslot region, its segment, keyslots and digests. */
  datatype Document = Document(region: nat, segment: Segment, keys: map<u32, Key>, digests: map<u32, Digest>)

  /** The names of `o` are exactly the decimal notations of `ids`. */
  ghost predicate Named(o: Obj, ids: set<u32>) {
    && (forall n :: n in ids ==> n <= 31 && D.Print(n) in o)
    && (forall name :: name in o ==> exists n: u32 :: n in ids && name == D.Print(n))
  }

  /** One area ends before the other starts. */
  predicate Separate(a: Area, b: Area) {
    a.start + a.size <= b.start || b.start + b.size <= a.start
  }

  ghost predicate KeyslotsSpec(b64: Base64, o: Obj, lo: nat, hi: u64, keys: map<u32, Key>) {
    && Named(o, keys.Keys)
    && (forall n :: n in keys && D.Print(n) in o ==> KeyslotSpec(b64, o[D.Print(n)], lo, hi, keys[n]))
    && (forall m, n :: m in keys && n in keys && m != n ==> Separate(keys[m].area, keys[n].area))
  }

  ghost predicate TokensSpec(o: Obj) {
    forall name :: name in o ==> o[name].Object? && exists n: u32 :: n <= 31 && name == D.Print(n)
  }

  /** Digest number `i` binds keyslot `n` to the segment. */
  predicate BoundBy(digests: map<u32, Digest>, i: u32, n: u32) {
    i in digests && digests[i].bound && n in digests[i].keyslots
  }

  ghost predicate DigestsSpec(b64: Base64, o: Obj, segment: u32, keys: map<u32, Key>, digests: map<u32, Digest>) {
    && Named(o, digests.Keys)
    && (forall i :: i in digests && D.Print(i) in o ==> DigestSpec(b64, o[D.Print(i)], segment, digests[i]))
    && (forall i, n :: i in digests && n in digests[i].keyslots ==> n in keys)
    && (forall i, j, n :: BoundBy(digests, i, n) && BoundBy(digests, j, n) ==> i == j)
  }

  /** A slot holds the sizes, place, hash and derivation of its keyslot, and derivation and value of its digest. */
  predicate SlotSays(s: Slot, key: Key, digest: Digest) {
    && s.keySize == key.area.keySize && s.areaKeySize == key.area.areaKeySize && s.areaOffset == key.area.start
    && s.afHash == key.afHash && s.kdf == key.kdf
    && s.digestKdf == digest.kdf && s.digest == digest.digest
  }

  /** The slots are the bound keyslots, each with its own parameters and those of its digest. */
  ghost predicate SlotsSpec(keys: map<u32, Key>, digests: map<u32, Digest>, slots: map<u32, Slot>) {
    && (forall n :: n in slots <==> n in keys && exists i :: BoundBy(digests, i, n))
    && (forall i, n :: n in slots && n in keys && BoundBy(digests, i, n) ==> SlotSays(slots[n], keys[n], digests[i]))
  }

  /** The five parts, all objects, and nothing else. */
  ghost predicate RootSpec(v: Value) {
    && v.Object? && v.fields.Keys == {"keyslots", "tokens", "segments", "digests", "config"}
    && forall k :: k in v.fields ==> v.fields[k].Object?
  }

  /** The document `v` says `d`, all of it is supported, and `m` is the metadata it describes. */
  ghost predicate Accepts(b64: Base64, v: Value, hdr: nat, imageLen: u64, d: Document, m: Metadata)
    requires 4096 <= hdr
  {
    && RootSpec(v)
    && ConfigSpec(v.fields["config"].fields, hdr, d.region) && 2 * hdr + d.region < U64_LIMIT
    && d.segment.id <= 31 && Part(v, "segments").Keys == {D.Print(d.segment.id)}
    && SegmentSpec(Part(v, "segments")[D.Print(d.segment.id)], 2 * hdr + d.region, imageLen, d.segment)
    && |Part(v, "keyslots")| <= 32 && KeyslotsSpec(b64, Part(v, "keyslots"), 2 * hdr, 2 * hdr + d.region, d.keys)
    && |Part(v, "tokens")| <= 32 && TokensSpec(Part(v, "tokens"))
    && |Part(v, "digests")| <= 32 && DigestsSpec(b64, Part(v, "digests"), d.segment.id, d.keys, d.digests)
    && m.offset == d.segment.offset && m.length == d.segment.length && SlotsSpec(d.keys, d.digests, m.slots)
  }

  // ---- the checks decide the conditions ----

  /** Names that are ids name distinct numbers. */
  lemma PrintInjective(m: u32, n: u32)
    requires D.Print(m) == D.Print(n)
    ensures m == n
  {
    hide D.Print, D.Parse;
    D.ParseInvertsPrint(D.Print(m), m);
    D.ParseInvertsPrint(D.Print(m), n);
  }

  lemma AllPrintInjective()
    ensures forall m: u32, n: u32 :: D.Print(m) == D.Print(n) ==> m == n
  {
    hide D.Print;
    forall m: u32, n: u32 | D.Print(m) == D.Print(n) ensures m == n {
      PrintInjective(m, n);
    }
  }

  /** The ids among the names of an object. */
  ghost function Ids(o: Obj): set<u32> {
    set n: u32 | n <= MAX_ID && D.Print(n) in o
  }

  lemma NamedIs(o: Obj)
    ensures (forall name :: name in o ==> D.Id(name, MAX_ID).Ok?) <==> Named(o, Ids(o))
    ensures forall ids :: Named(o, ids) ==> ids == Ids(o)
  {
    hide D.Print, D.Id;
    AllPrintInjective();
    forall name | name in o
      ensures D.Id(name, MAX_ID).Ok? <==> exists n: u32 :: n in Ids(o) && name == D.Print(n)
    {
      if D.Id(name, MAX_ID).Ok? {
        IdIs(name, D.Id(name, MAX_ID).value);
      }
      forall n: u32 | n in Ids(o) && name == D.Print(n) ensures D.Id(name, MAX_ID).Ok? {
        IdIs(name, n);
      }
    }
  }

  lemma SeparateIs()
    ensures forall a: Area, b: Area :: Disjoint(a, b) <==> Separate(a, b)
  {
  }

  lemma SaysIs()
    ensures forall s: Slot, key: Key, digest: Digest :: SlotSays(s, key, digest) <==> s == SlotFrom(key, digest)
  {
  }

  lemma KeyslotsAre(b64: Base64, o: Obj, lo: nat, hi: u64, keys: map<u32, Key>)
    ensures KeysOk(b64, o, lo, hi) && keys == KeysByNumber(b64, o, lo, hi) <==> KeyslotsSpec(b64, o, lo, hi, keys)
  {
    hide KeysOk, KeysByNumber, KeyslotsSpec;
    if KeysOk(b64, o, lo, hi) {
      GoodKeyslots(b64, o, lo, hi);
    }
    if KeyslotsSpec(b64, o, lo, hi, keys) {
      SpecifiedKeyslots(b64, o, lo, hi, keys);
    }
  }

  lemma GoodKeyslots(b64: Base64, o: Obj, lo: nat, hi: u64)
    requires KeysOk(b64, o, lo, hi)
    ensures KeyslotsSpec(b64, o, lo, hi, KeysByNumber(b64, o, lo, hi))
  {
    hide KeyOf, KeyslotSpec, D.Print, D.Id, Disjoint, Separate;
    SeparateIs();
    AllPrintInjective();
    NamedIs(o);
    var keys := KeysByNumber(b64, o, lo, hi);
    assert keys.Keys == Ids(o);
    forall n | n in keys ensures KeyslotSpec(b64, o[D.Print(n)], lo, hi, keys[n]) {
      KeyslotIsSpec(b64, o[D.Print(n)], lo, hi, keys[n]);
    }
  }

  lemma SpecifiedKeyslots(b64: Base64, o: Obj, lo: nat, hi: u64, keys: map<u32, Key>)
    requires KeyslotsSpec(b64, o, lo, hi, keys)
    ensures KeysOk(b64, o, lo, hi) && keys == KeysByNumber(b64, o, lo, hi)
  {
    hide KeyOf, KeyslotSpec, D.Print, D.Id, Disjoint, Separate;
    SeparateIs();
    NamedIs(o);
    assert keys.Keys == Ids(o);
    forall n | n in keys ensures KeyOf(b64, o[D.Print(n)], lo, hi) == Ok(keys[n]) {
      KeyslotIsSpec(b64, o[D.Print(n)], lo, hi, keys[n]);
    }
    forall k | k in o ensures KeyOf(b64, o[k], lo, hi).Ok? {
      var n: u32 :| n in keys && k == D.Print(n);
    }
  }

  lemma TokensAre(o: Obj)
    ensures TokensOk(o) <==> TokensSpec(o)
  {
    hide D.Print, D.Id;
    forall name | name in o ensures D.Id(name, MAX_ID).Ok? <==> exists n: u32 :: n <= MAX_ID && name == D.Print(n) {
      if D.Id(name, MAX_ID).Ok? {
        IdIs(name, D.Id(name, MAX_ID).value);
      }
      forall n: u32 | n <= MAX_ID && name == D.Print(n) ensures D.Id(name, MAX_ID).Ok? {
        IdIs(name, n);
      }
    }
  }

  /** The digests of an object by number. */
  ghost function DigestsByNumber(b64: Base64, o: Obj, segment: u32): map<u32, Digest> {
    map n: u32 | n <= MAX_ID && D.Print(n) in o && DigestOf(b64, o[D.Print(n)], segment).Some? ::
      DigestOf(b64, o[D.Print(n)], segment).value
  }

  /** Binding by name and binding by number are the same. */
  lemma BindsIs(b64: Base64, o: Obj, segment: u32, digests: map<u32, Digest>, i: u32, n: u32)
    requires i in digests && D.Print(i) in o && DigestOf(b64, o[D.Print(i)], segment) == Some(digests[i])
    ensures BoundBy(digests, i, n) <==> Binds(b64, o, segment, D.Print(i), n)
  {
    hide DigestOf, D.Print;
  }

  /** The digests of `o` have these numbers and parameters. */
  ghost predicate DigestsNumbered(b64: Base64, o: Obj, segment: u32, digests: map<u32, Digest>) {
    && Named(o, digests.Keys)
    && forall i :: i in digests && D.Print(i) in o ==> DigestOf(b64, o[D.Print(i)], segment) == Some(digests[i])
  }

  lemma NumberedBinds(b64: Base64, o: Obj, segment: u32, digests: map<u32, Digest>, d: string, n: u32)
    requires DigestsNumbered(b64, o, segment, digests)
    ensures Binds(b64, o, segment, d, n) <==> exists i: u32 :: d == D.Print(i) && BoundBy(digests, i, n)
  {
    hide DigestOf, D.Print;
    if d in o {
      var i: u32 :| i in digests && d == D.Print(i);
      BindsIs(b64, o, segment, digests, i, n);
    }
    forall i: u32 | d == D.Print(i) && BoundBy(digests, i, n) ensures Binds(b64, o, segment, d, n) {
      BindsIs(b64, o, segment, digests, i, n);
    }
  }

  /** Digests name only keyslots there are, and no two bind the same one. */
  ghost predicate Tidy(keys: map<u32, Key>, digests: map<u32, Digest>) {
    && (forall i, n :: i in digests && n in digests[i].keyslots ==> n in keys)
    && (forall i, j, n :: BoundBy(digests, i, n) && BoundBy(digests, j, n) ==> i == j)
  }

  lemma NumberedOk(b64: Base64, o: Obj, segment: u32, keys: map<u32, Key>, digests: map<u32, Digest>)
    requires DigestsNumbered(b64, o, segment, digests)
    ensures DigestsOk(b64, o, segment, keys) <==> Tidy(keys, digests)
  {
    hide DigestsNumbered, DigestsOk, Tidy;
    if Tidy(keys, digests) {
      TidyIsOk(b64, o, segment, keys, digests);
    }
    if DigestsOk(b64, o, segment, keys) {
      OkIsTidy(b64, o, segment, keys, digests);
    }
  }

  lemma TidyIsOk(b64: Base64, o: Obj, segment: u32, keys: map<u32, Key>, digests: map<u32, Digest>)
    requires DigestsNumbered(b64, o, segment, digests) && Tidy(keys, digests)
    ensures DigestsOk(b64, o, segment, keys)
  {
    hide DigestOf, D.Print, D.Id, Binds, BoundBy;
    NamedIs(o);
    forall d | d in o ensures D.Id(d, MAX_ID).Ok? && DigestOf(b64, o[d], segment).Some?
    ensures forall n :: n in DigestOf(b64, o[d], segment).value.keyslots ==> n in keys {
      var i: u32 :| i in digests && d == D.Print(i);
    }
    forall c: string, d: string, n: u32 | Binds(b64, o, segment, c, n) && Binds(b64, o, segment, d, n) ensures c == d {
      NumberedBinds(b64, o, segment, digests, c, n);
      NumberedBinds(b64, o, segment, digests, d, n);
      var i: u32 :| c == D.Print(i) && BoundBy(digests, i, n);
      var j: u32 :| d == D.Print(j) && BoundBy(digests, j, n);
    }
  }

  lemma OkIsTidy(b64: Base64, o: Obj, segment: u32, keys: map<u32, Key>, digests: map<u32, Digest>)
    requires DigestsNumbered(b64, o, segment, digests) && DigestsOk(b64, o, segment, keys)
    ensures Tidy(keys, digests)
  {
    hide DigestOf, D.Print, D.Id, Binds, BoundBy;
    forall i | i in digests ensures forall n :: n in digests[i].keyslots ==> n in keys {
      assert D.Print(i) in o;
    }
    forall i: u32, j: u32, n: u32 | BoundBy(digests, i, n) && BoundBy(digests, j, n) ensures i == j {
      NumberedBinds(b64, o, segment, digests, D.Print(i), n);
      NumberedBinds(b64, o, segment, digests, D.Print(j), n);
      PrintInjective(i, j);
    }
  }

  lemma NumberedSlots(b64: Base64, o: Obj, segment: u32, keys: map<u32, Key>, digests: map<u32, Digest>,
      slots: map<u32, Slot>)
    requires DigestsNumbered(b64, o, segment, digests)
    ensures SlotsAre(b64, o, segment, keys, slots) <==> SlotsSpec(keys, digests, slots)
  {
    hide DigestOf, D.Print, Binds, SlotFrom, SlotSays;
    SaysIs();
    forall d: string, n: u32
      ensures Binds(b64, o, segment, d, n) <==> exists i: u32 :: d == D.Print(i) && BoundBy(digests, i, n)
    {
      NumberedBinds(b64, o, segment, digests, d, n);
    }
    forall i: u32, n: u32 | BoundBy(digests, i, n)
      ensures Binds(b64, o, segment, D.Print(i), n) && DigestOf(b64, o[D.Print(i)], segment) == Some(digests[i])
    {
      BindsIs(b64, o, segment, digests, i, n);
    }
  }

  lemma GoodDigests(b64: Base64, o: Obj, segment: u32, keys: map<u32, Key>)
    requires DigestsOk(b64, o, segment, keys)
    ensures DigestsNumbered(b64, o, segment, DigestsByNumber(b64, o, segment))
  {
    hide DigestOf, D.Print, D.Id, Binds;
    NamedIs(o);
    var digests := DigestsByNumber(b64, o, segment);
    assert digests.Keys == Ids(o);
  }

  lemma SpecifiedDigests(b64: Base64, o: Obj, segment: u32, keys: map<u32, Key>, digests: map<u32, Digest>)
    ensures DigestsSpec(b64, o, segment, keys, digests) <==>
      DigestsNumbered(b64, o, segment, digests) && Tidy(keys, digests)
  {
    hide DigestOf, DigestSpec, D.Print, BoundBy;
    forall i | i in digests && D.Print(i) in o
      ensures DigestOf(b64, o[D.Print(i)], segment) == Some(digests[i]) <==>
        DigestSpec(b64, o[D.Print(i)], segment, digests[i])
    {
      DigestIsSpec(b64, o[D.Print(i)], segment, digests[i]);
    }
  }

  lemma SegmentsAre(v: Value, hdr: nat, region: nat, imageLen: u64, name: string, y: Segment)
    requires 4096 <= hdr && AreaEnd(v, hdr) == 2 * hdr + region
    ensures SegmentIs(v, hdr, imageLen, name, y) <==>
      && y.id <= MAX_ID && name == D.Print(y.id) && Part(v, "segments").Keys == {D.Print(y.id)}
      && SegmentSpec(Part(v, "segments")[D.Print(y.id)], 2 * hdr + region, imageLen, y)
  {
    hide SegmentOf, SegmentSpec, SegmentFlags, D.Print, Part, AreaEnd;
    var segments := Part(v, "segments");
    if segments.Keys == {name} {
      assert name in segments;
      SegmentIsSpec(name, segments[name], AreaEnd(v, hdr), imageLen, y);
      if SegmentSpec(segments[name], AreaEnd(v, hdr), imageLen, y) {
        SpecHasNoFlags(segments[name], AreaEnd(v, hdr), imageLen, y);
      }
    }
  }

  lemma SpecHasNoFlags(v: Value, areaEnd: nat, imageLen: u64, y: Segment)
    requires SegmentSpec(v, areaEnd, imageLen, y)
    ensures SegmentFlags(v).Ok?
  {
    UnlistedFlags(v);
  }

  lemma RegionIs(v: Value, hdr: nat, region: nat)
    requires 4096 <= hdr && RootOk(v)
    ensures ConfigOf(v.fields, hdr) == Ok(region) <==>
      v.fields["config"].Object? && ConfigSpec(v.fields["config"].fields, hdr, region)
    ensures ConfigOf(v.fields, hdr) == Ok(region) ==> AreaEnd(v, hdr) == 2 * hdr + region
  {
    hide ConfigOf, ConfigSpec;
    assert "config" in PARTS;
    ConfigIsSpec(v.fields, hdr, region);
  }

  /** Whatever passes the checks is a document that meets the conditions. */
  lemma PassesIsAccepted(b64: Base64, v: Value, hdr: nat, imageLen: u64, name: string, segment: Segment,
      m: Metadata) returns (d: Document)
    requires 4096 <= hdr && Passes(b64, v, hdr, imageLen, name, segment, m)
    ensures Accepts(b64, v, hdr, imageLen, d, m) && d.segment == segment && name == D.Print(segment.id)
  {
    hide RootOk, RootSpec, ConfigOf, ConfigSpec, SegmentIs, SegmentSpec, KeysOk, KeysByNumber, KeyslotsSpec, TokensOk;
    hide TokensSpec;
    hide DigestsOk, DigestsSpec, DigestsNumbered, DigestsByNumber, Tidy, SlotsAre, SlotsSpec, Part, AreaEnd, D.Print;
    RootIs(v);
    var region := ConfigOf(v.fields, hdr).value;
    RegionIs(v, hdr, region);
    SegmentsAre(v, hdr, region, imageLen, name, segment);
    var keys := KeysByNumber(b64, Part(v, "keyslots"), 2 * hdr, AreaEnd(v, hdr));
    var digests := DigestsByNumber(b64, Part(v, "digests"), segment.id);
    KeyslotsAre(b64, Part(v, "keyslots"), 2 * hdr, AreaEnd(v, hdr), keys);
    TokensAre(Part(v, "tokens"));
    GoodDigests(b64, Part(v, "digests"), segment.id, keys);
    NumberedOk(b64, Part(v, "digests"), segment.id, keys, digests);
    SpecifiedDigests(b64, Part(v, "digests"), segment.id, keys, digests);
    NumberedSlots(b64, Part(v, "digests"), segment.id, keys, digests, m.slots);
    d := Document(region, segment, keys, digests);
  }

  lemma RootIs(v: Value)
    ensures RootSpec(v) <==> RootOk(v) && "config" in v.fields && v.fields["config"].Object?
    ensures RootOk(v) ==> v.Object? && "config" in v.fields
  {
    assert PARTS == {"keyslots", "tokens", "segments", "digests", "config"};
    assert "config" in PARTS;
  }

  /** Whatever meets the conditions passes the checks. */
  lemma AcceptedPasses(b64: Base64, v: Value, hdr: nat, imageLen: u64, d: Document, m: Metadata)
    requires 4096 <= hdr && Accepts(b64, v, hdr, imageLen, d, m)
    ensures Passes(b64, v, hdr, imageLen, D.Print(d.segment.id), d.segment, m)
    ensures d.keys == KeysByNumber(b64, Part(v, "keyslots"), 2 * hdr, AreaEnd(v, hdr))
      && AreaEnd(v, hdr) == 2 * hdr + d.region
  {
    hide RootOk, RootSpec, ConfigOf, ConfigSpec, SegmentIs, SegmentSpec, KeysOk, KeysByNumber, KeyslotsSpec, TokensOk;
    hide TokensSpec;
    hide DigestsOk, DigestsSpec, DigestsNumbered, Tidy, SlotsAre, SlotsSpec, Part, AreaEnd, D.Print;
    RootIs(v);
    RegionIs(v, hdr, d.region);
    SegmentsAre(v, hdr, d.region, imageLen, D.Print(d.segment.id), d.segment);
    KeyslotsAre(b64, Part(v, "keyslots"), 2 * hdr, AreaEnd(v, hdr), d.keys);
    TokensAre(Part(v, "tokens"));
    SpecifiedDigests(b64, Part(v, "digests"), d.segment.id, d.keys, d.digests);
    NumberedOk(b64, Part(v, "digests"), d.segment.id, d.keys, d.digests);
    NumberedSlots(b64, Part(v, "digests"), d.segment.id, d.keys, d.digests, m.slots);
  }
}
