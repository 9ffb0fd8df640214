/**
 The strict JSON visitor of `src/strict_json.rs`, over the trees a tokenizer delivers:
 objects are lists of entries in input order, and a number is an integer or a float. The
 visitor is never offered an integer wider than 64 bits; one would be refused.
 */
module Json {
  import opened Basics

  datatype Entry = Entry(key: string, value: Raw)

  datatype Raw =
    | RawNull
    | RawBool(b: bool)
    | RawInt(n: int)
    | RawFloat
    | RawText(s: string)
    | RawList(items: seq<Raw>)
    | RawObject(entries: seq<Entry>)

  datatype Value =
    | Null
    | Bool(b: bool)
    | Number(n: int)
    | Text(s: string)
    | Array(items: seq<Value>)
    | Object(fields: map<string, Value>)

  const MAX_DEPTH: nat := 32

  // ---- the reference: every node of the tree, by its path ----

  /** The node reached by following child positions from the root. */
  function NodeAt(raw: Raw, path: seq<nat>): Option<Raw>
    decreases |path|
  {
    if path == [] then Some(raw)
    else match raw
      case RawList(items) => if path[0] < |items| then NodeAt(items[path[0]], path[1..]) else None
      case RawObject(entries) => if path[0] < |entries| then NodeAt(entries[path[0]].value, path[1..]) else None
      case _ => None
  }

  ghost predicate DistinctKeys(entries: seq<Entry>) {
    forall i, j :: 0 <= i < j < |entries| ==> entries[i].key != entries[j].key
  }

  /** The integers a visitor is offered: signed or unsigned, of 64 bits. */
  predicate Integer64(n: int) {
    -0x8000_0000_0000_0000 <= n < U64_LIMIT
  }

  /** A node that is fine on its own. */
  ghost predicate Fine(raw: Raw) {
    && !raw.RawFloat?
    && (raw.RawInt? ==> -0x8000_0000_0000_0000 <= raw.n < 0x1_0000_0000_0000_0000)
    && (raw.RawObject? ==> DistinctKeys(raw.entries))
  }

  /** No node of the tree is a float or a wider integer, repeats a key, or lies deeper than the limit. */
  ghost predicate StrictTree(raw: Raw) {
    forall path: seq<nat> :: NodeAt(raw, path).Some? ==> |path| <= 32 && Fine(NodeAt(raw, path).value)
  }

  // ---- the value of a tree ----

  function Denote(raw: Raw): Value
    decreases raw, 1
  {
    match raw
    case RawNull => Null
    case RawBool(b) => Bool(b)
    case RawInt(n) => Number(n)
    case RawFloat => Null
    case RawText(s) => Text(s)
    case RawList(items) => Array(seq(|items|, i requires 0 <= i < |items| => Denote(items[i])))
    case RawObject(entries) => Object(Fields(entries))
  }

  function Fields(entries: seq<Entry>): map<string, Value>
    decreases entries, 0
  {
    if entries == [] then map[]
    else
      var e := entries[|entries| - 1];
      Fields(entries[..|entries| - 1])[e.key := Denote(e.value)]
  }

  ghost predicate HasKey(entries: seq<Entry>, k: string) {
    exists i :: 0 <= i < |entries| && entries[i].key == k
  }

  lemma FieldsSnoc(entries: seq<Entry>)
    requires entries != []
    ensures var init, e := entries[..|entries| - 1], entries[|entries| - 1];
      && Fields(entries) == Fields(init)[e.key := Denote(e.value)]
      && forall k :: HasKey(entries, k) <==> HasKey(init, k) || k == e.key
  {
    var init, e := entries[..|entries| - 1], entries[|entries| - 1];
    forall k ensures HasKey(entries, k) <==> HasKey(init, k) || k == e.key {
      if HasKey(init, k) {
        var i :| 0 <= i < |init| && init[i].key == k;
        assert entries[i].key == k;
      }
      if k == e.key {
        assert entries[|entries| - 1].key == k;
      }
    }
  }

  lemma {:induction false} FieldsKeys(entries: seq<Entry>)
    ensures forall k :: k in Fields(entries) <==> HasKey(entries, k)
    decreases |entries|
  {
    hide Denote;
    if entries != [] {
      FieldsSnoc(entries);
      FieldsKeys(entries[..|entries| - 1]);
    }
  }

  lemma {:induction false} FieldsKeepValue(entries: seq<Entry>, i: nat)
    requires DistinctKeys(entries) && i < |entries|
    ensures entries[i].key in Fields(entries) && Fields(entries)[entries[i].key] == Denote(entries[i].value)
    decreases |entries|
  {
    hide Denote;
    FieldsSnoc(entries);
    if i < |entries| - 1 {
      FieldsKeepValue(entries[..|entries| - 1], i);
    }
  }

  lemma {:induction false} FieldsCount(entries: seq<Entry>)
    requires DistinctKeys(entries)
    ensures |Fields(entries)| == |entries|
    decreases |entries|
  {
    hide Denote;
    if entries != [] {
      var init := entries[..|entries| - 1];
      FieldsSnoc(entries);
      FieldsKeys(init);
      FieldsCount(init);
    }
  }

  /** Nothing is lost: each entry is a field, each field an entry, and there are as many. */
  lemma FieldsKeepEntries(entries: seq<Entry>)
    requires DistinctKeys(entries)
    ensures forall i :: 0 <= i < |entries| ==>
              entries[i].key in Fields(entries) && Fields(entries)[entries[i].key] == Denote(entries[i].value)
    ensures forall k :: k in Fields(entries) <==> HasKey(entries, k)
    ensures |Fields(entries)| == |entries|
  {
    hide Denote, Fields;
    FieldsKeys(entries);
    FieldsCount(entries);
    forall i | 0 <= i < |entries|
      ensures entries[i].key in Fields(entries) && Fields(entries)[entries[i].key] == Denote(entries[i].value)
    {
      FieldsKeepValue(entries, i);
    }
  }

  // ---- the recursion of the visitor ----

  ghost predicate Strict(raw: Raw, depth: nat)
    decreases raw
  {
    && depth <= MAX_DEPTH
    && Fine(raw)
    && (raw.RawList? ==> forall i :: 0 <= i < |raw.items| ==> Strict(raw.items[i], depth + 1))
    && (raw.RawObject? ==> forall i :: 0 <= i < |raw.entries| ==> Strict(raw.entries[i].value, depth + 1))
  }

  lemma {:induction false} StrictNodes(raw: Raw, depth: nat, path: seq<nat>)
    requires Strict(raw, depth) && NodeAt(raw, path).Some?
    ensures depth + |path| <= MAX_DEPTH && Fine(NodeAt(raw, path).value)
    decreases |path|
  {
    if path != [] {
      match raw
      case RawList(items) => StrictNodes(items[path[0]], depth + 1, path[1..]);
      case RawObject(entries) => StrictNodes(entries[path[0]].value, depth + 1, path[1..]);
    }
  }

  ghost predicate NodesFine(raw: Raw, depth: nat) {
    forall path: seq<nat> :: NodeAt(raw, path).Some? ==>
      depth + |path| <= MAX_DEPTH && Fine(NodeAt(raw, path).value)
  }

  /** The nodes below child `i` are nodes of the tree, one step deeper. */
  lemma ChildFine(raw: Raw, depth: nat, i: nat, child: Raw)
    requires NodesFine(raw, depth) && NodeAt(raw, [i]) == Some(child)
    ensures NodesFine(child, depth + 1)
  {
    forall path: seq<nat> | NodeAt(child, path).Some?
      ensures depth + 1 + |path| <= MAX_DEPTH && Fine(NodeAt(child, path).value)
    {
      assert ([i] + path)[1..] == path && [i][1..] == [];
      assert NodeAt(raw, [i] + path) == NodeAt(child, path);
    }
  }

  /** The root and its children, as nodes. */
  lemma Children(raw: Raw)
    ensures NodeAt(raw, []) == Some(raw)
    ensures raw.RawList? ==> forall i: nat :: i < |raw.items| ==> NodeAt(raw, [i]) == Some(raw.items[i])
    ensures raw.RawObject? ==> forall i: nat :: i < |raw.entries| ==> NodeAt(raw, [i]) == Some(raw.entries[i].value)
  {
    assert forall i: nat :: [i][1..] == [];
  }

  lemma {:induction false} NodesStrict(raw: Raw, depth: nat)
    requires NodesFine(raw, depth)
    ensures Strict(raw, depth)
    decreases raw
  {
    hide NodeAt, NodesFine, Fine;
    Children(raw);
    assert depth <= MAX_DEPTH && Fine(raw) by { RootFine(raw, depth); }
    if raw.RawList? {
      forall i: nat | i < |raw.items| ensures Strict(raw.items[i], depth + 1) {
        ChildFine(raw, depth, i, raw.items[i]);
        NodesStrict(raw.items[i], depth + 1);
      }
    }
    if raw.RawObject? {
      forall i: nat | i < |raw.entries| ensures Strict(raw.entries[i].value, depth + 1) {
        ChildFine(raw, depth, i, raw.entries[i].value);
        NodesStrict(raw.entries[i].value, depth + 1);
      }
    }
  }

  lemma RootFine(raw: Raw, depth: nat)
    requires NodesFine(raw, depth)
    ensures depth <= MAX_DEPTH && Fine(raw)
  {
    assert NodeAt(raw, []) == Some(raw);
  }

  /** The recursion with a depth counter accepts exactly the trees all of whose nodes are fine. */
  lemma StrictIsStrictTree(raw: Raw)
    ensures Strict(raw, 0) <==> StrictTree(raw)
  {
    if Strict(raw, 0) {
      forall path: seq<nat> | NodeAt(raw, path).Some?
        ensures |path| <= MAX_DEPTH && Fine(NodeAt(raw, path).value)
      {
        StrictNodes(raw, 0, path);
      }
    }
    if StrictTree(raw) {
      assert NodesFine(raw, 0);
      NodesStrict(raw, 0);
    }
  }

  /** `Node::deserialize`: the depth check, then the visitor of the node's kind. */
  method Deserialize(raw: Raw, depth: nat) returns (r: Result<Value>)
    ensures r == if Strict(raw, depth) then Ok(Denote(raw)) else Err(MetadataInvalid)
    decreases raw, 2
  {
    if depth > MAX_DEPTH {
      return Err(MetadataInvalid);
    }
    match raw
    case RawNull => return Ok(Null);
    case RawBool(b) => return Ok(Bool(b));
    case RawInt(n) =>
      if Integer64(n) {
        return Ok(Number(n));
      }
      return Err(MetadataInvalid);
    case RawFloat => return Err(MetadataInvalid);
    case RawText(s) => return Ok(Text(s));
    case RawList(items) => r := VisitSeq(raw, depth);
    case RawObject(entries) => r := VisitMap(raw, depth);
  }

  method VisitSeq(raw: Raw, depth: nat) returns (r: Result<Value>)
    requires raw.RawList? && depth <= MAX_DEPTH
    ensures r == if Strict(raw, depth) then Ok(Denote(raw)) else Err(MetadataInvalid)
    decreases raw, 1
  {
    var v: seq<Value> := [];
    var i := 0;
    while i < |raw.items|
      invariant 0 <= i == |v| <= |raw.items|
      invariant forall k :: 0 <= k < i ==> Strict(raw.items[k], depth + 1) && v[k] == Denote(raw.items[k])
    {
      var x := Deserialize(raw.items[i], depth + 1);
      if x.Err? {
        return Err(MetadataInvalid);
      }
      v := v + [x.value];
      i := i + 1;
    }
    assert v == seq(|raw.items|, k requires 0 <= k < |raw.items| => Denote(raw.items[k]));
    return Ok(Array(v));
  }

  lemma ObjectIs(raw: Raw)
    requires raw.RawObject?
    ensures Denote(raw) == Object(Fields(raw.entries))
  {
  }

  lemma NextKey(entries: seq<Entry>, i: nat)
    requires i < |entries| && DistinctKeys(entries[..i])
    ensures HasKey(entries[..i], entries[i].key) ==> !DistinctKeys(entries)
    ensures !HasKey(entries[..i], entries[i].key) ==> DistinctKeys(entries[..i + 1])
  {
    var seen := entries[..i];
    if HasKey(seen, entries[i].key) {
      var j :| 0 <= j < |seen| && seen[j].key == entries[i].key;
      assert entries[j].key == entries[i].key;
    }
  }

  lemma NextEntry(entries: seq<Entry>, i: nat)
    requires i < |entries| && DistinctKeys(entries[..i])
    ensures entries[i].key in Fields(entries[..i]) ==> !DistinctKeys(entries)
    ensures entries[i].key !in Fields(entries[..i]) ==>
      && DistinctKeys(entries[..i + 1])
      && Fields(entries[..i + 1]) == Fields(entries[..i])[entries[i].key := Denote(entries[i].value)]
  {
    hide Denote, DistinctKeys, Fields, HasKey;
    FieldsKeys(entries[..i]);
    NextKey(entries, i);
    FieldsSnoc(entries[..i + 1]);
    assert entries[..i + 1][..i] == entries[..i];
  }

  method VisitMap(raw: Raw, depth: nat) returns (r: Result<Value>)
    requires raw.RawObject? && depth <= MAX_DEPTH
    ensures r == if Strict(raw, depth) then Ok(Denote(raw)) else Err(MetadataInvalid)
    decreases raw, 1
  {
    hide Denote, Fields, DistinctKeys;
    ObjectIs(raw);
    var m: map<string, Value> := map[];
    var i := 0;
    NoEntries();
    assert raw.entries[..0] == [];
    while i < |raw.entries|
      invariant 0 <= i <= |raw.entries| && m == Fields(raw.entries[..i])
      invariant DistinctKeys(raw.entries[..i])
      invariant forall k :: 0 <= k < i ==> Strict(raw.entries[k].value, depth + 1)
    {
      NextEntry(raw.entries, i);
      if raw.entries[i].key in m {
        return Err(MetadataInvalid);
      }
      var x := Deserialize(raw.entries[i].value, depth + 1);
      if x.Err? {
        return Err(MetadataInvalid);
      }
      m := m[raw.entries[i].key := x.value];
      i := i + 1;
    }
    assert raw.entries[..i] == raw.entries;
    return Ok(Object(m));
  }

  lemma NoEntries()
    ensures Fields([]) == map[] && DistinctKeys([])
  {
  }

  /** The parser: strict trees and only they, with every entry kept. */
  method Parse(raw: Raw) returns (r: Result<Value>)
    ensures r == if StrictTree(raw) then Ok(Denote(raw)) else Err(MetadataInvalid)
  {
    StrictIsStrictTree(raw);
    r := Deserialize(raw, 0);
  }

  // ---- every value of bounded depth and 64-bit integers is the value of a strict tree ----

  ghost predicate Shallow(v: Value, depth: nat)
    decreases v
  {
    && depth <= 32
    && (v.Number? ==> -0x8000_0000_0000_0000 <= v.n < 0x1_0000_0000_0000_0000)
    && (v.Array? ==> forall i :: 0 <= i < |v.items| ==> Shallow(v.items[i], depth + 1))
    && (v.Object? ==> forall k :: k in v.fields ==> Shallow(v.fields[k], depth + 1))
  }

  ghost predicate Represents(raw: Raw, depth: nat, v: Value) {
    Strict(raw, depth) && Denote(raw) == v
  }

  /** Nothing a value can say is out of reach of the parser but depth and wider integers. */
  lemma {:induction false} Representable(v: Value, depth: nat) returns (raw: Raw)
    requires Shallow(v, depth)
    ensures Represents(raw, depth, v)
    decreases v, 2
  {
    match v
    case Null => raw := RawNull;
    case Bool(b) => raw := RawBool(b);
    case Number(n) => raw := RawInt(n);
    case Text(s) => raw := RawText(s);
    case Array(items) =>
      var raws := ItemsRepresentable(v, depth, |items|);
      raw := RawList(raws);
      assert Denote(raw).items == items;
    case Object(fields) =>
      var entries := FieldsRepresentable(v, depth, fields.Keys);
      assert Picked(fields, fields.Keys) == fields;
      raw := RawObject(entries);
  }

  lemma {:induction false} ItemsRepresentable(v: Value, depth: nat, n: nat) returns (raws: seq<Raw>)
    requires v.Array? && Shallow(v, depth) && n <= |v.items|
    ensures |raws| == n && forall i :: 0 <= i < n ==> Represents(raws[i], depth + 1, v.items[i])
    decreases v, 1, n
  {
    hide Represents;
    raws := [];
    if n > 0 {
      var init := ItemsRepresentable(v, depth, n - 1);
      var last := Representable(v.items[n - 1], depth + 1);
      raws := init + [last];
    }
  }

  /** The members of an object named in `keys`. */
  function Picked(fields: map<string, Value>, keys: set<string>): map<string, Value>
    requires keys <= fields.Keys
  {
    map k | k in keys :: fields[k]
  }

  ghost predicate Lists(entries: seq<Entry>, depth: nat, fields: map<string, Value>) {
    && DistinctKeys(entries) && Fields(entries) == fields
    && forall i :: 0 <= i < |entries| ==> Strict(entries[i].value, depth)
  }

  lemma {:induction false} FieldsRepresentable(v: Value, depth: nat, keys: set<string>) returns (entries: seq<Entry>)
    requires v.Object? && Shallow(v, depth) && keys <= v.fields.Keys
    ensures Lists(entries, depth + 1, Picked(v.fields, keys))
    decreases v, 1, |keys|
  {
    hide Lists, Picked, Represents;
    if keys == {} {
      entries := [];
      NothingListed(v.fields, depth + 1);
    } else {
      var k :| k in keys;
      var init := FieldsRepresentable(v, depth, keys - {k});
      var raw := Representable(v.fields[k], depth + 1);
      entries := init + [Entry(k, raw)];
      OneMoreListed(v.fields, keys, k, init, raw, depth + 1);
    }
  }

  lemma NothingListed(fields: map<string, Value>, depth: nat)
    ensures Lists([], depth, Picked(fields, {}))
  {
  }

  lemma OneMoreListed(fields: map<string, Value>, keys: set<string>, k: string, init: seq<Entry>, raw: Raw, depth: nat)
    requires keys <= fields.Keys && k in keys && Lists(init, depth, Picked(fields, keys - {k}))
      && Represents(raw, depth, fields[k])
    ensures Lists(init + [Entry(k, raw)], depth, Picked(fields, keys))
  {
    hide Denote, Strict, Fields, DistinctKeys;
    var entries := init + [Entry(k, raw)];
    FieldsKeys(init);
    FieldsSnoc(entries);
    NextKey(entries, |init|);
    assert entries[..|init|] == init && entries[..|init| + 1] == entries;
    assert Picked(fields, keys) == Picked(fields, keys - {k})[k := fields[k]];
  }

  lemma {:induction false} StrictIsShallow(raw: Raw, depth: nat)
    requires Strict(raw, depth)
    ensures Shallow(Denote(raw), depth)
    decreases raw
  {
    hide DistinctKeys, Fields;
    match raw
    case RawList(items) =>
      forall i | 0 <= i < |items| ensures Shallow(Denote(items[i]), depth + 1) {
        StrictIsShallow(items[i], depth + 1);
      }
    case RawObject(entries) =>
      FieldsKeepEntries(entries);
      forall k | k in Fields(entries) ensures Shallow(Fields(entries)[k], depth + 1) {
        var i :| 0 <= i < |entries| && entries[i].key == k;
        StrictIsShallow(entries[i].value, depth + 1);
      }
    case _ =>
  }

  /** The parser returns exactly the values of bounded depth whose integers have 64 bits. */
  lemma ParsedIsShallow(v: Value)
    ensures Shallow(v, 0) <==> exists raw :: StrictTree(raw) && Denote(raw) == v
  {
    if Shallow(v, 0) {
      var raw := Representable(v, 0);
      StrictIsStrictTree(raw);
    }
    if exists raw :: StrictTree(raw) && Denote(raw) == v {
      var raw :| StrictTree(raw) && Denote(raw) == v;
      StrictIsStrictTree(raw);
      StrictIsShallow(raw, 0);
    }
  }
}
