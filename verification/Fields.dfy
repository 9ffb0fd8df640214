/** Typed access to JSON objects, and the pure checks of `src/metadata.rs`. */
module Fields {
  import opened Basics
  import opened Json
  import opened AntiForensic
  import D = Decimal

  type Obj = map<string, Value>

  /** Base64 as a partial function on text. */
  type Base64 = string -> Option<seq<Byte>>

  function AsObject(v: Value): Result<Obj> {
    if v.Object? then Ok(v.fields) else Err(MetadataInvalid)
  }

  function Get(o: Obj, k: string): Result<Value> {
    if k in o then Ok(o[k]) else Err(MetadataInvalid)
  }

  function ObjectAt(o: Obj, k: string): Result<Obj> {
    var v :- Get(o, k);
    AsObject(v)
  }

  function AsText(v: Value): Result<string> {
    if v.Text? then Ok(v.s) else Err(MetadataInvalid)
  }

  function TextAt(o: Obj, k: string): Result<string> {
    var v :- Get(o, k);
    AsText(v)
  }

  function AsU64(v: Value): Result<u64> {
    if v.Number? && 0 <= v.n < U64_LIMIT then Ok(v.n) else Err(MetadataInvalid)
  }

  function NumberAt(o: Obj, k: string): Result<u64> {
    var v :- Get(o, k);
    AsU64(v)
  }

  function DecimalAt(o: Obj, k: string): Result<u64> {
    var s :- TextAt(o, k);
    D.Parse(s)
  }

  function AsArray(v: Value): Result<seq<Value>> {
    if v.Array? then Ok(v.items) else Err(MetadataInvalid)
  }

  function ArrayAt(o: Obj, k: string): Result<seq<Value>> {
    var v :- Get(o, k);
    AsArray(v)
  }

  function Only(o: Obj, allowed: set<string>): Result<()> {
    Need(o.Keys <= allowed, UnsupportedProfile)
  }

  function Base64At(b64: Base64, o: Obj, k: string): Result<seq<Byte>> {
    var s :- TextAt(o, k);
    match b64(s)
    case Some(b) => Ok(b)
    case None => Err(MetadataInvalid)
  }

  function Bounded(o: Obj, k: string, max: u32): (r: Result<u32>)
    ensures r.Ok? ==> 0 < r.value <= max
  {
    var n :- NumberAt(o, k);
    if n == 0 || n > max then Err(ResourceLimit) else Ok(n)
  }

  /** An optional list that must be empty. */
  function NoneListed(o: Obj, k: string): Result<()> {
    if k !in o then Ok(())
    else
      var items :- AsArray(o[k]);
      Need(items == [], UnsupportedProfile)
  }

  predicate Contains(s: string, part: string) {
    part <= s || (s != [] && Contains(s[1..], part))
  }

  /** Each item is text, and none asks for reencryption. */
  function NoReencryption(items: seq<Value>): Result<()> {
    if items == [] then Ok(())
    else
      var s :- AsText(items[0]);
      if Contains(s, "reencrypt") then Err(ReencryptionUnsupported) else NoReencryption(items[1..])
  }

  /** `parse_kdf`: what it accepts is affordable to derive. */
  function KdfOf(b64: Base64, o: Obj): (r: Result<Kdf>)
    ensures r.Ok? ==> Affordable(r.value)
  {
    var salt :- Base64At(b64, o, "salt");
    var _ :- Need(|salt| == 32, MetadataInvalid);
    var kind :- TextAt(o, "type");
    if kind == "pbkdf2" then
      var _ :- Only(o, {"type", "hash", "iterations", "salt"});
      var name :- TextAt(o, "hash");
      var hash :- HashParse(name);
      var iterations :- Bounded(o, "iterations", 10_000_000);
      Ok(Pbkdf2(hash, iterations, salt))
    else if kind == "argon2i" || kind == "argon2id" then
      var _ :- Only(o, {"type", "time", "memory", "cpus", "salt"});
      var memory :- Bounded(o, "memory", 1_048_576);
      var time :- Bounded(o, "time", 10);
      var cpus :- Bounded(o, "cpus", 8);
      if memory < 8 * cpus then Err(MetadataInvalid) else Ok(Argon2(kind == "argon2id", memory, time, cpus, salt))
    else Err(UnsupportedProfile)
  }

  /** Affordable parameters pass every check of the derivation, whatever the size asked for within 4..64. */
  lemma AffordableDerives(p: Primitives, kdf: Kdf, password: seq<Byte>, size: nat)
    requires Sized(p) && Affordable(kdf) && 4 <= size <= 64
    ensures Derive(p, kdf, password, size) == Ok(p.derive(kdf, password, size))
    ensures |p.derive(kdf, password, size)| == size
  {
  }

  // ---- lists of ids ----

  /** The ids an array stands for, if every item is a canonical id. */
  function IdsOf(items: seq<Value>, max: u32): (r: Option<seq<u32>>)
    ensures r.Some? ==> |r.value| == |items|
  {
    if items == [] then Some([])
    else
      var last := items[|items| - 1];
      match IdsOf(items[..|items| - 1], max)
      case None => None
      case Some(ids) =>
        if last.Text? && D.Id(last.s, max).Ok? then Some(ids + [D.Id(last.s, max).value]) else None
  }

  ghost predicate Distinct(ids: seq<u32>) {
    forall i, j :: 0 <= i < j < |ids| ==> ids[i] != ids[j]
  }

  lemma {:induction false} IdsOfPrefix(items: seq<Value>, max: u32, n: nat)
    requires n <= |items| && IdsOf(items, max).Some?
    ensures IdsOf(items[..n], max) == Some(IdsOf(items, max).value[..n])
    decreases |items|
  {
    if n < |items| {
      var init := items[..|items| - 1];
      IdsOfPrefix(init, max, n);
      assert init[..n] == items[..n];
      assert IdsOf(items, max).value[..n] == IdsOf(init, max).value[..n];
    } else {
      assert items[..n] == items && IdsOf(items, max).value[..n] == IdsOf(items, max).value;
    }
  }

  /** `ids`: accepted are exactly the lists of distinct canonical ids, and they come back in order. */
  method Ids(o: Obj, k: string, max: u32) returns (r: Result<seq<u32>>)
    ensures r.Ok? <==> k in o && o[k].Array? && IdsOf(o[k].items, max).Some? && Distinct(IdsOf(o[k].items, max).value)
    ensures r.Ok? ==> r.value == IdsOf(o[k].items, max).value
    ensures r.Err? ==> r.error == MetadataInvalid
  {
    hide IdsOf;
    var items :- ArrayAt(o, k);
    var out: seq<u32> := [];
    var i := 0;
    NoIds(max);
    assert items[..0] == [];
    while i < |items|
      invariant 0 <= i <= |items|
      invariant IdsOf(items[..i], max) == Some(out) && Distinct(out)
    {
      IdsOfNext(items, max, i);
      var s :- AsText(items[i]);
      var n :- D.Id(s, max);
      if n in out {
        if IdsOf(items, max).Some? {
          ghost var j :| 0 <= j < |out| && out[j] == n;
          assert IdsOf(items, max).value[j] == IdsOf(items, max).value[i];
        }
        return Err(MetadataInvalid);
      }
      out := out + [n];
      i := i + 1;
    }
    assert items[..i] == items;
    return Ok(out);
  }

  lemma NoIds(max: u32)
    ensures IdsOf([], max) == Some([])
  {
  }

  lemma IdsOfNext(items: seq<Value>, max: u32, i: nat)
    requires i < |items| && IdsOf(items[..i], max).Some?
    ensures var ids, item := IdsOf(items[..i], max).value, items[i];
      if item.Text? && D.Id(item.s, max).Ok? then
        && IdsOf(items[..i + 1], max) == Some(ids + [D.Id(item.s, max).value])
        && (IdsOf(items, max).Some? ==> ids + [D.Id(item.s, max).value] == IdsOf(items, max).value[..i + 1])
      else IdsOf(items, max).None?
  {
    assert items[..i + 1][..i] == items[..i];
    if IdsOf(items, max).Some? {
      IdsOfPrefix(items, max, i + 1);
    }
  }
}
