/** The loops of `from_json`: each visits its object in some order and meets its condition in module Metadata. */
module Loading {
  import opened Basics
  import opened Json
  import opened Fields
  import opened Metadata
  import D = Decimal

  function Sub(o: Obj, names: set<string>): Obj {
    map k | k in o && k in names :: o[k]
  }

  /** The keyslot loop: areas are checked against every area seen before. */
  method Keyslots(b64: Base64, keys: Obj, lo: nat, hi: nat) returns (r: Result<map<u32, Key>>)
    requires hi < U64_LIMIT
    ensures r.Ok? <==> KeysOk(b64, keys, lo, hi)
    ensures r.Ok? ==> r.value == KeysByNumber(b64, keys, lo, hi)
  {
    hide KeysOk, KeysByNumber, AreasOf, KeyOf, AreaOf, SecretOf, D.Id, D.Print, Disjoint;
    var parsed: map<u32, Key> := map[];
    var ranges: seq<Area> := [];
    var rest, done: set<string> := keys.Keys, {};
    NoKeys(b64, keys, lo, hi);
    while rest != {}
      invariant rest + done == keys.Keys && rest !! done
      invariant KeysOk(b64, Sub(keys, done), lo, hi)
      invariant parsed == KeysByNumber(b64, Sub(keys, done), lo, hi)
      invariant AreasOf(b64, keys, done, lo, hi, ranges)
      decreases rest
    {
      var k :| k in rest;
      rest := rest - {k};
      KeyParts(b64, keys[k], lo, hi);
      if !D.Id(k, MAX_ID).Ok? {
        KeysNeed(b64, keys, lo, hi, k);
        return Err(MetadataInvalid);
      }
      var id := D.Id(k, MAX_ID).value;
      var o := AsObject(keys[k]);
      if o.Err? {
        KeysNeed(b64, keys, lo, hi, k);
        return Err(o.error);
      }
      var area := AreaOf(o.value, lo, hi);
      if area.Err? {
        KeysNeed(b64, keys, lo, hi, k);
        return Err(area.error);
      }
      var clash := exists i :: 0 <= i < |ranges| && !Disjoint(area.value, ranges[i]);
      if clash {
        KeysClash(b64, keys, lo, hi, done, ranges, k, area.value);
        return Err(MetadataInvalid);
      }
      ranges := ranges + [area.value];
      var secret := SecretOf(b64, o.value);
      if secret.Err? {
        KeysNeed(b64, keys, lo, hi, k);
        return Err(secret.error);
      }
      var key := Key(area.value, secret.value.1, secret.value.0);
      assert ranges[..|ranges| - 1] + [area.value] == ranges;
      AddKey(b64, keys, lo, hi, done, k, id, key, ranges[..|ranges| - 1]);
      // Canonical names: no earlier keyslot has this number, so nothing is overwritten.
      assert id !in parsed;
      parsed := parsed[id := key];
      done := done + {k};
    }
    assert Sub(keys, done) == keys;
    return Ok(parsed);
  }

  /** `ranges` lists the areas of the keyslots in `done`. */
  ghost predicate AreasOf(b64: Base64, keys: Obj, done: set<string>, lo: nat, hi: nat, ranges: seq<Area>)
    requires hi < U64_LIMIT
  {
    && (forall k :: k in done ==>
          k in keys && KeyOf(b64, keys[k], lo, hi).Ok? && KeyOf(b64, keys[k], lo, hi).value.area in ranges)
    && (forall a :: a in ranges ==> exists k ::
          k in done && k in keys && KeyOf(b64, keys[k], lo, hi).Ok? && KeyOf(b64, keys[k], lo, hi).value.area == a)
  }

  lemma NoKeys(b64: Base64, keys: Obj, lo: nat, hi: nat)
    requires hi < U64_LIMIT
    ensures KeysOk(b64, Sub(keys, {}), lo, hi) && KeysByNumber(b64, Sub(keys, {}), lo, hi) == map[]
    ensures AreasOf(b64, keys, {}, lo, hi, [])
  {
  }

  /** A keyslot whose name or body is not good spoils the whole object. */
  lemma KeysNeed(b64: Base64, keys: Obj, lo: nat, hi: nat, k: string)
    requires hi < U64_LIMIT && k in keys && (D.Id(k, MAX_ID).Err? || KeyOf(b64, keys[k], lo, hi).Err?)
    ensures !KeysOk(b64, keys, lo, hi)
  {
  }

  lemma KeysClash(b64: Base64, keys: Obj, lo: nat, hi: nat, done: set<string>, ranges: seq<Area>, k: string, area: Area)
    requires hi < U64_LIMIT && k in keys && k !in done && AreasOf(b64, keys, done, lo, hi, ranges)
    requires keys[k].Object? && AreaOf(keys[k].fields, lo, hi) == Ok(area)
    requires exists i :: 0 <= i < |ranges| && !Disjoint(area, ranges[i])
    ensures !KeysOk(b64, keys, lo, hi)
  {
    hide AreaOf, SecretOf;
    var i :| 0 <= i < |ranges| && !Disjoint(area, ranges[i]);
    var a := ranges[i];
    assert a in ranges;
    var j :| j in done && j in keys && KeyOf(b64, keys[j], lo, hi).Ok? && KeyOf(b64, keys[j], lo, hi).value.area == a;
    assert KeyOf(b64, keys[k], lo, hi).Ok? ==> KeyOf(b64, keys[k], lo, hi).value.area == area;
  }

  lemma KeyParts(b64: Base64, v: Value, lo: nat, hi: nat)
    requires hi < U64_LIMIT
    ensures AsObject(v).Err? || AreaOf(AsObject(v).value, lo, hi).Err? || SecretOf(b64, AsObject(v).value).Err? ==>
      KeyOf(b64, v, lo, hi).Err?
    ensures AsObject(v).Ok? ==> v.Object? && AsObject(v).value == v.fields
    ensures AsObject(v).Ok? && AreaOf(AsObject(v).value, lo, hi).Ok? && SecretOf(b64, AsObject(v).value).Ok? ==>
      var secret := SecretOf(b64, AsObject(v).value).value;
      KeyOf(b64, v, lo, hi) == Ok(Key(AreaOf(AsObject(v).value, lo, hi).value, secret.1, secret.0))
  {
    hide AreaOf, SecretOf;
  }

  lemma SubMore(o: Obj, done: set<string>, k: string)
    requires k in o && k !in done && done <= o.Keys
    ensures Sub(o, done + {k}) == Sub(o, done)[k := o[k]] && k !in Sub(o, done)
  {
  }

  lemma AddKey(b64: Base64, keys: Obj, lo: nat, hi: nat, done: set<string>, k: string, id: u32, key: Key,
      ranges: seq<Area>)
    requires hi < U64_LIMIT && k in keys && k !in done && done <= keys.Keys
    requires KeysOk(b64, Sub(keys, done), lo, hi) && AreasOf(b64, keys, done, lo, hi, ranges)
    requires D.Id(k, MAX_ID) == Ok(id) && KeyOf(b64, keys[k], lo, hi) == Ok(key)
    requires forall i :: 0 <= i < |ranges| ==> Disjoint(key.area, ranges[i])
    ensures KeysOk(b64, Sub(keys, done + {k}), lo, hi)
    ensures id !in KeysByNumber(b64, Sub(keys, done), lo, hi)
    ensures KeysByNumber(b64, Sub(keys, done + {k}), lo, hi) == KeysByNumber(b64, Sub(keys, done), lo, hi)[id := key]
    ensures AreasOf(b64, keys, done + {k}, lo, hi, ranges + [key.area])
  {
    hide KeyOf, KeysOk, KeysByNumber, AreasOf, D.Id, D.Print, Disjoint;
    SubMore(keys, done, k);
    KeysOkMore(b64, keys, lo, hi, done, k, key, ranges);
    NumbersMore(b64, Sub(keys, done), lo, hi, k, keys[k], id, key);
    AreasMore(b64, keys, lo, hi, done, k, key, ranges);
  }

  lemma KeysOkMore(b64: Base64, keys: Obj, lo: nat, hi: nat, done: set<string>, k: string, key: Key, ranges: seq<Area>)
    requires hi < U64_LIMIT && k in keys && k !in done && done <= keys.Keys
    requires KeysOk(b64, Sub(keys, done), lo, hi) && AreasOf(b64, keys, done, lo, hi, ranges)
    requires D.Id(k, MAX_ID).Ok? && KeyOf(b64, keys[k], lo, hi) == Ok(key)
    requires forall i :: 0 <= i < |ranges| ==> Disjoint(key.area, ranges[i])
    ensures KeysOk(b64, Sub(keys, done + {k}), lo, hi)
  {
    hide KeyOf, D.Id;
    SubMore(keys, done, k);
    var o := Sub(keys, done);
    forall j | j in o
      ensures KeyOf(b64, o[j], lo, hi).Ok? && Disjoint(KeyOf(b64, o[j], lo, hi).value.area, key.area)
    {
      var a := KeyOf(b64, keys[j], lo, hi).value.area;
      assert a in ranges;
      var i :| 0 <= i < |ranges| && ranges[i] == a;
      assert Disjoint(key.area, ranges[i]);
    }
  }

  lemma NumbersMore(b64: Base64, o: Obj, lo: nat, hi: nat, k: string, v: Value, id: u32, key: Key)
    requires hi < U64_LIMIT && k !in o && KeysOk(b64, o, lo, hi) && KeysOk(b64, o[k := v], lo, hi)
    requires D.Id(k, MAX_ID) == Ok(id) && KeyOf(b64, v, lo, hi) == Ok(key)
    ensures id !in KeysByNumber(b64, o, lo, hi)
    ensures KeysByNumber(b64, o[k := v], lo, hi) == KeysByNumber(b64, o, lo, hi)[id := key]
  {
    hide KeyOf, KeysOk, D.Print, D.Parse;
    D.ParseInvertsPrint(k, id);
    forall n: u32 | n != id ensures D.Print(n) != k {
      D.ParseInvertsPrint(k, n);
    }
  }

  lemma AreasMore(b64: Base64, keys: Obj, lo: nat, hi: nat, done: set<string>, k: string, key: Key, ranges: seq<Area>)
    requires hi < U64_LIMIT && k in keys && AreasOf(b64, keys, done, lo, hi, ranges)
    requires KeyOf(b64, keys[k], lo, hi) == Ok(key)
    ensures AreasOf(b64, keys, done + {k}, lo, hi, ranges + [key.area])
  {
    hide KeyOf;
    forall a | a in ranges + [key.area]
      ensures exists j ::
        j in done + {k} && j in keys && KeyOf(b64, keys[j], lo, hi).Ok? && KeyOf(b64, keys[j], lo, hi).value.area == a
    {
      if a in ranges {
        var j :| j in done && j in keys && KeyOf(b64, keys[j], lo, hi).Ok?
          && KeyOf(b64, keys[j], lo, hi).value.area == a;
        assert j in done + {k};
      } else {
        assert k in done + {k};
      }
    }
  }

  // ---- tokens, digests, segments ----

  method Tokens(tokens: Obj) returns (r: Result<()>)
    ensures r.Ok? <==> TokensOk(tokens)
  {
    var rest := tokens.Keys;
    while rest != {}
      invariant rest <= tokens.Keys
      invariant forall t :: t in tokens && t !in rest ==> D.Id(t, MAX_ID).Ok? && tokens[t].Object?
      decreases rest
    {
      var t :| t in rest;
      rest := rest - {t};
      var _ :- D.Id(t, MAX_ID);
      var _ :- AsObject(tokens[t]);
    }
    return Ok(());
  }

  method OneDigest(b64: Base64, v: Value, segment: u32) returns (r: Result<Digest>)
    ensures r.Ok? <==> DigestOf(b64, v, segment).Some?
    ensures r.Ok? ==> r.value == DigestOf(b64, v, segment).value
  {
    hide DigestHead;
    var o :- AsObject(v);
    var head :- DigestHead(b64, o);
    var ds :- Ids(o, "segments", MAX_ID);
    if exists s :: s in ds && s != segment {
      return Err(MetadataInvalid);
    }
    var ks :- Ids(o, "keyslots", MAX_ID);
    return Ok(Digest(head.0, head.1, ds != [], ks));
  }

  /** The slots a digest contributes with the first `i` of its keyslots. */
  function Given(keys: map<u32, Key>, d: Digest, i: nat): map<u32, Slot>
    requires i <= |d.keyslots|
  {
    if d.bound then map n | n in d.keyslots[..i] && n in keys :: SlotFrom(keys[n], d) else map[]
  }

  /** The digest loop: every keyslot named must exist, and no bound one may come twice. */
  method Digests(b64: Base64, digests: Obj, segment: u32, keys: map<u32, Key>) returns (r: Result<map<u32, Slot>>)
    ensures r.Ok? <==> DigestsOk(b64, digests, segment, keys)
    ensures r.Ok? ==> SlotsAre(b64, digests, segment, keys, r.value)
  {
    hide DigestsOk, SlotsAre, DigestOf, Given, D.Id;
    var slots: map<u32, Slot> := map[];
    var rest, done: set<string> := digests.Keys, {};
    NoDigests(b64, digests, segment, keys);
    while rest != {}
      invariant rest + done == digests.Keys && rest !! done
      invariant DigestsOk(b64, Sub(digests, done), segment, keys)
      invariant SlotsAre(b64, Sub(digests, done), segment, keys, slots)
      decreases rest
    {
      var d :| d in rest;
      rest := rest - {d};
      if !D.Id(d, MAX_ID).Ok? {
        DigestsNeed(b64, digests, segment, keys, d);
        return Err(MetadataInvalid);
      }
      var parsed := OneDigest(b64, digests[d], segment);
      if parsed.Err? {
        DigestsNeed(b64, digests, segment, keys, d);
        return Err(parsed.error);
      }
      var digest := parsed.value;
      DigestDistinct(b64, digests[d], segment);
      ghost var before := slots;
      GivenNothing(keys, digest, slots);
      var i := 0;
      while i < |digest.keyslots|
        invariant 0 <= i <= |digest.keyslots|
        invariant forall j ::
          0 <= j < i ==> digest.keyslots[j] in keys && (digest.bound ==> digest.keyslots[j] !in before)
        invariant slots == before + Given(keys, digest, i)
      {
        var k := digest.keyslots[i];
        if k !in keys {
          DigestsNeedKey(b64, digests, segment, keys, d, k);
          return Err(MetadataInvalid);
        }
        GivenMore(keys, digest, i, before);
        if digest.bound {
          if k in slots {
            DigestsClash(b64, digests, segment, keys, done, before, d, k);
            return Err(MetadataInvalid);
          }
          slots := slots[k := SlotFrom(keys[k], digest)];
        }
        i := i + 1;
      }
      AddDigest(b64, digests, segment, keys, done, before, d, digest);
      done := done + {d};
    }
    assert Sub(digests, done) == digests;
    return Ok(slots);
  }

  lemma NoDigests(b64: Base64, digests: Obj, segment: u32, keys: map<u32, Key>)
    ensures DigestsOk(b64, Sub(digests, {}), segment, keys) && SlotsAre(b64, Sub(digests, {}), segment, keys, map[])
  {
  }

  lemma DigestDistinct(b64: Base64, v: Value, segment: u32)
    requires DigestOf(b64, v, segment).Some?
    ensures Distinct(DigestOf(b64, v, segment).value.keyslots)
  {
  }

  lemma GivenNothing(keys: map<u32, Key>, d: Digest, slots: map<u32, Slot>)
    ensures slots + Given(keys, d, 0) == slots
  {
  }

  lemma GivenMore(keys: map<u32, Key>, d: Digest, i: nat, before: map<u32, Slot>)
    requires i < |d.keyslots| && d.keyslots[i] in keys && Distinct(d.keyslots)
    ensures var k := d.keyslots[i];
      && (d.bound ==> before + Given(keys, d, i + 1) == (before + Given(keys, d, i))[k := SlotFrom(keys[k], d)])
      && (!d.bound ==> Given(keys, d, i + 1) == Given(keys, d, i))
      && (k in before + Given(keys, d, i) <==> k in before)
  {
    assert d.keyslots[..i + 1] == d.keyslots[..i] + [d.keyslots[i]];
  }

  lemma DigestsNeed(b64: Base64, digests: Obj, segment: u32, keys: map<u32, Key>, d: string)
    requires d in digests && (D.Id(d, MAX_ID).Err? || DigestOf(b64, digests[d], segment).None?)
    ensures !DigestsOk(b64, digests, segment, keys)
  {
  }

  lemma DigestsNeedKey(b64: Base64, digests: Obj, segment: u32, keys: map<u32, Key>, d: string, k: u32)
    requires d in digests && DigestOf(b64, digests[d], segment).Some?
    requires k in DigestOf(b64, digests[d], segment).value.keyslots && k !in keys
    ensures !DigestsOk(b64, digests, segment, keys)
  {
    hide DigestOf;
  }

  lemma DigestsClash(b64: Base64, digests: Obj, segment: u32, keys: map<u32, Key>, done: set<string>,
      slots: map<u32, Slot>, d: string, k: u32)
    requires d in digests && d !in done && SlotsAre(b64, Sub(digests, done), segment, keys, slots) && k in slots
    requires Binds(b64, digests, segment, d, k)
    ensures !DigestsOk(b64, digests, segment, keys)
  {
    hide DigestOf;
    var c :| Binds(b64, Sub(digests, done), segment, c, k);
    assert Binds(b64, digests, segment, c, k) && c != d;
  }

  lemma AddDigest(b64: Base64, digests: Obj, segment: u32, keys: map<u32, Key>, done: set<string>,
      before: map<u32, Slot>, d: string, digest: Digest)
    requires d in digests && d !in done && done <= digests.Keys && D.Id(d, MAX_ID).Ok?
    requires DigestOf(b64, digests[d], segment) == Some(digest)
    requires DigestsOk(b64, Sub(digests, done), segment, keys)
      && SlotsAre(b64, Sub(digests, done), segment, keys, before)
    requires forall j :: 0 <= j < |digest.keyslots| ==>
      digest.keyslots[j] in keys && (digest.bound ==> digest.keyslots[j] !in before)
    ensures DigestsOk(b64, Sub(digests, done + {d}), segment, keys)
    ensures SlotsAre(b64, Sub(digests, done + {d}), segment, keys, before + Given(keys, digest, |digest.keyslots|))
  {
    hide DigestOf, D.Id, Given;
    var o, p := Sub(digests, done), Sub(digests, done + {d});
    SubMore(digests, done, d);
    assert OneMore(b64, o, p, segment, d, digest);
    AllGiven(keys, digest);
    DigestsOkMore(b64, o, p, segment, keys, before, d, digest);
    SlotsMore(b64, o, p, segment, keys, before, d, digest, Given(keys, digest, |digest.keyslots|));
  }

  lemma AllGiven(keys: map<u32, Key>, d: Digest)
    requires forall n :: n in d.keyslots ==> n in keys
    ensures var g := Given(keys, d, |d.keyslots|);
      && (forall n :: n in g <==> d.bound && n in d.keyslots)
      && (forall n :: n in g && n in keys ==> g[n] == SlotFrom(keys[n], d))
  {
    assert d.keyslots[..|d.keyslots|] == d.keyslots;
  }

  ghost predicate OneMore(b64: Base64, o: Obj, p: Obj, segment: u32, d: string, digest: Digest) {
    && d !in o && p.Keys == o.Keys + {d} && (forall c :: c in o ==> p[c] == o[c])
    && DigestOf(b64, p[d], segment) == Some(digest)
    && forall c, n :: Binds(b64, p, segment, c, n) <==>
         Binds(b64, o, segment, c, n) || (c == d && digest.bound && n in digest.keyslots)
  }

  lemma DigestsOkMore(b64: Base64, o: Obj, p: Obj, segment: u32, keys: map<u32, Key>, before: map<u32, Slot>,
      d: string, digest: Digest)
    requires OneMore(b64, o, p, segment, d, digest) && D.Id(d, MAX_ID).Ok?
    requires DigestsOk(b64, o, segment, keys) && SlotsAre(b64, o, segment, keys, before)
    requires forall n :: n in digest.keyslots ==> n in keys && (digest.bound ==> n !in before)
    ensures DigestsOk(b64, p, segment, keys)
  {
    hide DigestOf, D.Id, Binds;
    assert forall c, n :: Binds(b64, o, segment, c, n) && n in keys ==> n in before;
    assert forall n :: n in digest.keyslots ==> n in keys;
  }

  lemma SlotsMore(b64: Base64, o: Obj, p: Obj, segment: u32, keys: map<u32, Key>, before: map<u32, Slot>, d: string,
      digest: Digest, given: map<u32, Slot>)
    requires OneMore(b64, o, p, segment, d, digest) && SlotsAre(b64, o, segment, keys, before)
    requires forall n :: n in digest.keyslots ==> n in keys && (digest.bound ==> n !in before)
    requires forall n :: n in given <==> digest.bound && n in digest.keyslots
    requires forall n :: n in given && n in keys ==> given[n] == SlotFrom(keys[n], digest)
    ensures SlotsAre(b64, p, segment, keys, before + given)
  {
    hide DigestOf, D.Id;
    var slots := before + given;
    forall n ensures n in slots <==> n in keys && exists c :: Binds(b64, p, segment, c, n) {
      if n in before {
        var c :| Binds(b64, o, segment, c, n);
        assert Binds(b64, p, segment, c, n);
      }
      if n in given {
        assert Binds(b64, p, segment, d, n);
      }
      if n in keys && exists c :: Binds(b64, p, segment, c, n) {
        var c :| Binds(b64, p, segment, c, n);
        assert Binds(b64, o, segment, c, n) || (c == d && n in given);
      }
    }
    forall n, c | n in slots && n in keys && Binds(b64, p, segment, c, n)
      ensures slots[n] == SlotFrom(keys[n], DigestOf(b64, p[c], segment).value)
    {
      assert Binds(b64, o, segment, c, n) || (c == d && n in given);
      if Binds(b64, o, segment, c, n) {
        assert n in before && n !in given;
      }
    }
  }
}
