/** `from_json` of `src/metadata.rs` as a whole, and what its acceptance means. */
module Parsing {
  import opened Basics
  import opened Json
  import opened AntiForensic
  import opened Fields
  import opened Metadata
  import opened Loading
  import opened Documents
  import D = Decimal

  // ---- the parser ----

  /** The flags of every segment are looked at before their number is. */
  method FlagScan(segments: Obj) returns (r: Result<()>)
    ensures r.Ok? <==> forall s :: s in segments ==> SegmentFlags(segments[s]).Ok?
  {
    hide SegmentFlags;
    var rest := segments.Keys;
    while rest != {}
      invariant rest <= segments.Keys
      invariant forall s :: s in segments && s !in rest ==> SegmentFlags(segments[s]).Ok?
      decreases rest
    {
      var s :| s in rest;
      rest := rest - {s};
      var _ :- SegmentFlags(segments[s]);
    }
    return Ok(());
  }

  method TheSegment(v: Value, hdr: u64, imageLen: u64) returns (r: Result<(string, Segment)>)
    requires 4096 <= hdr
    ensures r.Ok? <==> exists name, segment :: SegmentIs(v, hdr, imageLen, name, segment)
    ensures r.Ok? ==> SegmentIs(v, hdr, imageLen, r.value.0, r.value.1)
  {
    hide SegmentFlags, SegmentOf, AreaEnd, Part;
    var segments := Part(v, "segments");
    var _ :- FlagScan(segments);
    if |segments| != 1 {
      forall name ensures segments.Keys != {name} {
        assert |segments| == |segments.Keys|;
      }
      return Err(UnsupportedProfile);
    }
    assert |segments.Keys| == 1;
    var name :| name in segments;
    OnlyMember(segments.Keys, name);
    assert forall n :: segments.Keys == {n} ==> n == name;
    var segment :- SegmentOf(name, segments[name], AreaEnd(v, hdr), imageLen);
    assert SegmentIs(v, hdr, imageLen, name, segment);
    return Ok((name, segment));
  }

  lemma OnlyMember(s: set<string>, x: string)
    requires |s| == 1 && x in s
    ensures s == {x}
  {
    assert |s - {x}| == 0;
  }

  /**
   The parser accepts exactly the documents that meet the conditions of module Documents, in
   whatever order it visits the objects, and returns the metadata they describe.
   */
  method FromJson(b64: Base64, v: Value, hdr: u64, imageLen: u64) returns (r: Result<Metadata>)
    requires 4096 <= hdr
    ensures r.Ok? <==> exists d, m :: Accepts(b64, v, hdr, imageLen, d, m)
    ensures r.Ok? ==> exists d :: Accepts(b64, v, hdr, imageLen, d, r.value)
  {
    hide Accepts, ConfigOf, SegmentIs, PartsOk, SlotsAre, HasParts, RootOk, Part, AreaEnd, KeysByNumber;
    AcceptsIsPasses(b64, v, hdr, imageLen);
    RootIsObject(v);
    var root :- AsObject(v);
    RootParts(v);
    var _ :- Only(root, PARTS);
    var size :- ConfigOf(root, hdr);
    if 2 * hdr + size >= U64_LIMIT {
      return Err(MetadataInvalid);
    }
    var hi := 2 * hdr + size;
    var segments :- ObjectAt(root, "segments");
    assert segments == Part(v, "segments") && hi == AreaEnd(v, hdr);
    var named :- TheSegment(v, hdr, imageLen);
    SegmentIsOne(v, hdr, imageLen, named.0, named.1);
    var slots :- SlotsIn(b64, v, 2 * hdr, hi, named.1.id);
    var m := Metadata(named.1.offset, named.1.length, slots);
    assert Passes(b64, v, hdr, imageLen, named.0, named.1, m);
    return Ok(m);
  }

  lemma AcceptsIsPasses(b64: Base64, v: Value, hdr: u64, imageLen: u64)
    requires 4096 <= hdr
    ensures forall d, m :: Accepts(b64, v, hdr, imageLen, d, m) ==>
      exists name, segment :: Passes(b64, v, hdr, imageLen, name, segment, m)
    ensures forall name, segment, m :: Passes(b64, v, hdr, imageLen, name, segment, m) ==>
      exists d :: Accepts(b64, v, hdr, imageLen, d, m)
  {
    hide Accepts, Passes;
    forall d, m | Accepts(b64, v, hdr, imageLen, d, m)
      ensures exists name, segment :: Passes(b64, v, hdr, imageLen, name, segment, m)
    {
      AcceptedPasses(b64, v, hdr, imageLen, d, m);
    }
    forall name, segment, m | Passes(b64, v, hdr, imageLen, name, segment, m)
      ensures exists d :: Accepts(b64, v, hdr, imageLen, d, m)
    {
      var d := PassesIsAccepted(b64, v, hdr, imageLen, name, segment, m);
    }
  }

  lemma RootIsObject(v: Value)
    ensures RootOk(v) ==> v.Object?
  {
  }

  /** The five parts of the root object, one by one. */
  lemma RootParts(v: Value)
    requires v.Object?
    ensures RootOk(v) <==>
      Only(v.fields, PARTS).Ok? && "config" in v.fields && ObjectAt(v.fields, "segments").Ok? && HasParts(v)
    ensures forall hdr: nat :: 4096 <= hdr && ConfigOf(v.fields, hdr).Ok? ==>
      "config" in v.fields && AreaEnd(v, hdr) == 2 * hdr + ConfigOf(v.fields, hdr).value
    ensures ObjectAt(v.fields, "segments").Ok? ==> Part(v, "segments") == ObjectAt(v.fields, "segments").value
  {
    if Only(v.fields, PARTS).Ok? && "config" in v.fields && ObjectAt(v.fields, "segments").Ok? && HasParts(v) {
      assert forall k :: k in PARTS ==> k in v.fields;
      assert v.fields.Keys == PARTS;
    }
  }

  /** Keyslots, tokens and digests, in this order. */
  method SlotsIn(b64: Base64, v: Value, lo: nat, hi: u64, segment: u32) returns (r: Result<map<u32, Slot>>)
    requires v.Object?
    ensures r.Ok? <==> HasParts(v) && PartsOk(b64, v, lo, hi, segment)
    ensures r.Ok? ==>
      SlotsAre(b64, Part(v, "digests"), segment, KeysByNumber(b64, Part(v, "keyslots"), lo, hi), r.value)
  {
    hide KeysOk, KeysByNumber, TokensOk, DigestsOk, SlotsAre;
    var root := v.fields;
    var keys :- ObjectAt(root, "keyslots");
    if |keys| > 32 {
      return Err(ResourceLimit);
    }
    var parsed :- Keyslots(b64, keys, lo, hi);
    var tokens :- ObjectAt(root, "tokens");
    if |tokens| > 32 {
      return Err(ResourceLimit);
    }
    var _ :- Tokens(tokens);
    var digests :- ObjectAt(root, "digests");
    if |digests| > 32 {
      return Err(ResourceLimit);
    }
    r := Digests(b64, digests, segment, parsed);
  }

  predicate HasParts(v: Value) {
    v.Object? && forall k :: k in {"keyslots", "tokens", "digests"} ==> k in v.fields && v.fields[k].Object?
  }

  lemma SegmentIsOne(v: Value, hdr: u64, imageLen: u64, name: string, segment: Segment)
    requires 4096 <= hdr && SegmentIs(v, hdr, imageLen, name, segment)
    ensures forall n, s :: SegmentIs(v, hdr, imageLen, n, s) ==> n == name && s == segment
  {
    hide SegmentOf, SegmentFlags, AreaEnd, Part;
    forall n, s | SegmentIs(v, hdr, imageLen, n, s) ensures n == name && s == segment {
      assert n in Part(v, "segments").Keys;
    }
  }

  // ---- what acceptance means ----

  /** A document says one thing and describes one metadata: the visiting order is immaterial. */
  lemma AcceptsOne(b64: Base64, v: Value, hdr: u64, imageLen: u64, d1: Document, m1: Metadata, d2: Document,
      m2: Metadata)
    requires 4096 <= hdr && Accepts(b64, v, hdr, imageLen, d1, m1) && Accepts(b64, v, hdr, imageLen, d2, m2)
    ensures d1 == d2 && m1 == m2
  {
    hide Accepts, Passes, KeysByNumber, DigestsNumbered, SlotsSpec, SegmentIs, Part, AreaEnd, D.Print;
    AcceptedPasses(b64, v, hdr, imageLen, d1, m1);
    AcceptedPasses(b64, v, hdr, imageLen, d2, m2);
    AcceptedParts(b64, v, hdr, imageLen, d1, m1);
    AcceptedParts(b64, v, hdr, imageLen, d2, m2);
    SegmentIsOne(v, hdr, imageLen, D.Print(d1.segment.id), d1.segment);
    DigestsOne(b64, Part(v, "digests"), d1.segment.id, d1.digests, d2.digests);
    SlotsOne(d1.keys, d1.digests, m1.slots, m2.slots);
  }

  lemma AcceptedParts(b64: Base64, v: Value, hdr: u64, imageLen: u64, d: Document, m: Metadata)
    requires 4096 <= hdr && Accepts(b64, v, hdr, imageLen, d, m)
    ensures SegmentIs(v, hdr, imageLen, D.Print(d.segment.id), d.segment)
    ensures DigestsNumbered(b64, Part(v, "digests"), d.segment.id, d.digests)
    ensures m.offset == d.segment.offset && m.length == d.segment.length && SlotsSpec(d.keys, d.digests, m.slots)
  {
    hide RootSpec, ConfigSpec, SegmentIs, SegmentSpec, KeyslotsSpec, TokensSpec, DigestsSpec, DigestsNumbered, Tidy;
    hide SlotsSpec, Part, AreaEnd, D.Print;
    AcceptedPasses(b64, v, hdr, imageLen, d, m);
    SpecifiedDigests(b64, Part(v, "digests"), d.segment.id, d.keys, d.digests);
  }

  lemma DigestsOne(b64: Base64, o: Obj, segment: u32, s: map<u32, Digest>, t: map<u32, Digest>)
    requires DigestsNumbered(b64, o, segment, s) && DigestsNumbered(b64, o, segment, t)
    ensures s == t
  {
    hide DigestOf, D.Print, Named;
    NamedIs(o);
    assert s.Keys == t.Keys == Documents.Ids(o);
    assert forall i :: i in s ==> D.Print(i) in o;
  }

  lemma SlotsOne(keys: map<u32, Key>, digests: map<u32, Digest>, s: map<u32, Slot>, t: map<u32, Slot>)
    requires SlotsSpec(keys, digests, s) && SlotsSpec(keys, digests, t)
    ensures s == t
  {
    hide BoundBy;
    assert s.Keys == t.Keys;
    forall n | n in s ensures s[n] == t[n] {
      var i :| BoundBy(digests, i, n);
    }
  }

  /** A keyslot area lies in the region and is not empty. */
  predicate Inside(a: Area, lo: nat, hi: nat) {
    lo <= a.start < a.start + a.size <= hi
  }

  /**
   The geometry of an accepted image. The first header ends where the second starts, the
   keyslot region lies behind both, and the payload behind the region and inside the image.
   Every keyslot the document names has its area in the region, no two areas meet, and all
   ends fit 64 bits.
   */
  lemma Geometry(b64: Base64, v: Value, hdr: u64, imageLen: u64, d: Document, m: Metadata)
    requires 4096 <= hdr && Accepts(b64, v, hdr, imageLen, d, m)
    ensures 2 * hdr <= 2 * hdr + d.region <= m.offset < m.offset + m.length <= imageLen
    ensures m.offset % 512 == 0 && m.length % 512 == 0
    ensures forall name :: name in Part(v, "keyslots") ==> exists n: u32 :: n in d.keys && name == D.Print(n)
    ensures forall n :: n in d.keys ==> Inside(d.keys[n].area, 2 * hdr, 2 * hdr + d.region)
    ensures forall j, k :: j in d.keys && k in d.keys && j != k ==> Separate(d.keys[j].area, d.keys[k].area)
  {
    hide RootSpec, ConfigSpec, KeyslotSpec, TokensSpec, DigestsSpec, SlotsSpec, Part, D.Print, Separate;
    forall n | n in d.keys ensures Inside(d.keys[n].area, 2 * hdr, 2 * hdr + d.region) {
      KeyslotFits(b64, Part(v, "keyslots")[D.Print(n)], 2 * hdr, 2 * hdr + d.region, d.keys[n]);
    }
  }

  lemma KeyslotFits(b64: Base64, v: Value, lo: nat, hi: u64, y: Key)
    requires KeyslotSpec(b64, v, lo, hi, y)
    ensures Inside(y.area, lo, hi) && AreaFits(y.area, lo, hi) && Affordable(y.kdf)
  {
    assert 0 < 32 * STRIPES;
  }

  /** What `unlock` needs of a slot. */
  predicate SlotFits(s: Slot, lo: nat, hi: nat) {
    && KeyLength(s.keySize) && KeyLength(s.areaKeySize)
    && lo <= s.areaOffset && s.areaOffset + s.keySize * STRIPES <= hi
    && Affordable(s.kdf) && Affordable(s.digestKdf)
    && (|s.digest| == 20 || |s.digest| == 32 || |s.digest| == 64)
  }

  /** The slots are the keyslots some digest binds, no two digests bind the same one, and `keyslots` names it. */
  ghost predicate SlotsAreBound(d: Document, keyslots: Obj, slots: map<u32, Slot>) {
    && (forall n: u32 :: n in slots <==> exists i :: BoundBy(d.digests, i, n))
    && (forall n: u32, i, j :: BoundBy(d.digests, i, n) && BoundBy(d.digests, j, n) ==> i == j)
    && (forall n: u32 :: n in slots ==> n <= MAX_ID && n in d.keys && D.Print(n) in keyslots)
  }

  /**
   The slots of an accepted image are exactly the keyslots bound to the one segment, each
   by exactly one digest, and each fits everything done with it later.
   */
  lemma Binding(b64: Base64, v: Value, hdr: u64, imageLen: u64, d: Document, m: Metadata)
    requires 4096 <= hdr && Accepts(b64, v, hdr, imageLen, d, m)
    ensures SlotsAreBound(d, Part(v, "keyslots"), m.slots)
    ensures forall n: u32 :: n in m.slots ==> SlotFits(m.slots[n], 2 * hdr, 2 * hdr + d.region)
  {
    hide RootSpec, ConfigSpec, SegmentSpec, KeyslotsSpec, TokensSpec, DigestsSpec, SlotsSpec, Part, D.Print, SlotFits;
    hide BoundBy;
    var keyslots, digests := Part(v, "keyslots"), Part(v, "digests");
    SlotsBound(b64, digests, d.segment.id, d.keys, d.digests, m.slots);
    forall n: u32 | n in m.slots
      ensures n <= MAX_ID && n in d.keys && D.Print(n) in keyslots && SlotFits(m.slots[n], 2 * hdr, 2 * hdr + d.region)
    {
      var i :| BoundBy(d.digests, i, n) && i in d.digests && n in d.keys
        && SlotSays(m.slots[n], d.keys[n], d.digests[i]);
      NumberedKeyslotFits(b64, keyslots, 2 * hdr, 2 * hdr + d.region, d.keys, n);
      BoundDigestFits(b64, digests, d.segment.id, d.keys, d.digests, i);
      FitSlot(m.slots[n], d.keys[n], d.digests[i], 2 * hdr, 2 * hdr + d.region);
    }
  }

  lemma SlotsBound(b64: Base64, o: Obj, segment: u32, keys: map<u32, Key>, digests: map<u32, Digest>,
      slots: map<u32, Slot>)
    requires DigestsSpec(b64, o, segment, keys, digests) && SlotsSpec(keys, digests, slots)
    ensures forall n: u32 :: n in slots <==> exists i :: BoundBy(digests, i, n)
    ensures forall n: u32, i, j :: BoundBy(digests, i, n) && BoundBy(digests, j, n) ==> i == j
    ensures forall n: u32 :: n in slots ==>
      exists i :: BoundBy(digests, i, n) && i in digests && n in keys && SlotSays(slots[n], keys[n], digests[i])
  {
    hide Named, DigestSpec, SlotSays;
    assert forall n: u32, i :: BoundBy(digests, i, n) ==> i in digests && n in keys;
  }

  lemma NumberedKeyslotFits(b64: Base64, o: Obj, lo: nat, hi: u64, keys: map<u32, Key>, n: u32)
    requires KeyslotsSpec(b64, o, lo, hi, keys) && n in keys
    ensures n <= MAX_ID && D.Print(n) in o && AreaFits(keys[n].area, lo, hi) && Affordable(keys[n].kdf)
  {
    hide KeyslotSpec, D.Print, Separate, AreaFits, Affordable;
    KeyslotFits(b64, o[D.Print(n)], lo, hi, keys[n]);
  }

  lemma BoundDigestFits(b64: Base64, o: Obj, segment: u32, keys: map<u32, Key>, digests: map<u32, Digest>, i: u32)
    requires DigestsSpec(b64, o, segment, keys, digests) && i in digests
    ensures Affordable(digests[i].kdf)
      && (|digests[i].digest| == 20 || |digests[i].digest| == 32 || |digests[i].digest| == 64)
  {
    hide DigestSpec, D.Print, Affordable;
    DigestFits(b64, o[D.Print(i)], segment, digests[i]);
  }

  lemma FitSlot(s: Slot, key: Key, digest: Digest, lo: nat, hi: nat)
    requires SlotSays(s, key, digest)
    requires AreaFits(key.area, lo, hi) && Affordable(key.kdf) && Affordable(digest.kdf)
    requires |digest.digest| == 20 || |digest.digest| == 32 || |digest.digest| == 64
    ensures SlotFits(s, lo, hi)
  {
  }

  lemma DigestFits(b64: Base64, v: Value, segment: u32, y: Digest)
    requires DigestSpec(b64, v, segment, y)
    ensures Affordable(y.kdf) && (|y.digest| == 20 || |y.digest| == 32 || |y.digest| == 64)
  {
  }
}
