/** One small image that unlocks: what the theorems about metadata and crashes ask for exists. */
module Example {
  import opened Basics
  import opened Json
  import opened AntiForensic
  import opened Fields
  import opened Metadata
  import opened Documents
  import opened Sectors
  import opened Device
  import opened Headers
  import opened Unlocking
  import Runs
  import D = Decimal

  const HDR: nat := 16384
  const REGION: nat := 131072
  const PAYLOAD: nat := 163840
  const LENGTH: u64 := 164352

  function Dec(n: nat): Value { Text(D.Print(n)) }

  function Config(): Obj {
    map["json_size" := Dec(HDR - 4096), "keyslots_size" := Dec(REGION)]
  }

  function SegmentObject(): Obj {
    map["type" := Text("crypt"), "offset" := Dec(PAYLOAD), "size" := Text("dynamic"), "iv_tweak" := Dec(0),
        "encryption" := Text("aes-xts-plain64"), "sector_size" := Number(512)]
  }

  function AreaObject(): Obj {
    map["type" := Text("raw"), "offset" := Dec(2 * HDR), "size" := Dec(REGION),
        "encryption" := Text("aes-xts-plain64"), "key_size" := Number(32)]
  }

  function AfObject(): Obj {
    map["type" := Text("luks1"), "stripes" := Number(4000), "hash" := Text("sha256")]
  }

  function KdfObject(): Obj {
    map["type" := Text("pbkdf2"), "hash" := Text("sha256"), "iterations" := Number(1000), "salt" := Text("")]
  }

  function KeyObject(): Obj {
    map["type" := Text("luks2"), "key_size" := Number(32), "area" := Object(AreaObject()),
        "kdf" := Object(KdfObject()), "af" := Object(AfObject())]
  }

  function DigestObject(): Obj {
    map["type" := Text("pbkdf2"), "keyslots" := Array([Dec(0)]), "segments" := Array([Dec(0)]),
        "hash" := Text("sha256"), "iterations" := Number(1000), "salt" := Text(""), "digest" := Text("")]
  }

  function Root(): Value {
    Object(map["keyslots" := Object(map[D.Print(0) := Object(KeyObject())]), "tokens" := Object(map[]),
      "segments" := Object(map[D.Print(0) := Object(SegmentObject())]),
      "digests" := Object(map[D.Print(0) := Object(DigestObject())]), "config" := Object(Config())])
  }

  function Nulls(n: nat): (b: seq<Byte>)
    ensures |b| == n
  {
    seq(n, _ => 0)
  }

  /** Base64 text of 32 zero bytes, whatever is asked for. */
  function Zeros(s: string): Option<seq<Byte>> { Some(Nulls(32)) }

  lemma DecIs(o: Obj, k: string, n: u64)
    requires k in o && o[k] == Dec(n)
    ensures DecimalAt(o, k) == Ok(n)
  {
    D.ParseInvertsPrint(D.Print(n), n);
  }

  lemma ConfigIs()
    ensures ConfigOf(Root().fields, HDR) == Ok(REGION)
  {
    hide D.Print, D.Parse, SegmentObject, KeyObject, DigestObject;
    DecIs(Config(), "json_size", HDR - 4096);
    DecIs(Config(), "keyslots_size", REGION);
    assert ObjectAt(Root().fields, "config") == Ok(Config());
  }

  lemma SegmentGood()
    ensures SegmentOf(D.Print(0), Object(SegmentObject()), PAYLOAD, LENGTH) == Ok(Segment(0, PAYLOAD, LENGTH - PAYLOAD))
    ensures SegmentFlags(Object(SegmentObject())).Ok?
  {
    hide D.Print, D.Parse;
    DecIs(SegmentObject(), "offset", PAYLOAD);
    DecIs(SegmentObject(), "iv_tweak", 0);
    D.ParseInvertsPrint(D.Print(0), 0);
  }

  lemma AreaGood()
    ensures AreaOf(KeyObject(), 2 * HDR, PAYLOAD) == Ok(Area(32, 32, 2 * HDR, REGION))
  {
    hide D.Print, D.Parse, KdfObject, AfObject;
    DecIs(AreaObject(), "offset", 2 * HDR);
    DecIs(AreaObject(), "size", REGION);
  }

  lemma KdfGood()
    ensures KdfOf(Zeros, KdfObject()) == Ok(Pbkdf2(Sha256, 1000, Nulls(32)))
  {
  }

  lemma KeyGood()
    ensures KeyOf(Zeros, Object(KeyObject()), 2 * HDR, PAYLOAD)
         == Ok(Key(Area(32, 32, 2 * HDR, REGION), Sha256, Pbkdf2(Sha256, 1000, Nulls(32))))
  {
    hide D.Print, D.Parse, AreaOf, KdfOf, KdfObject, AreaObject;
    AreaGood();
    KdfGood();
    assert SecretOf(Zeros, KeyObject()) == Ok((Pbkdf2(Sha256, 1000, Nulls(32)), Sha256));
  }

  function Derivation(): Kdf { Pbkdf2(Sha256, 1000, Nulls(32)) }

  lemma IdsGood()
    ensures IdsOf([Dec(0)], MAX_ID) == Some([0])
  {
    hide D.Print, D.Parse;
    D.ParseInvertsPrint(D.Print(0), 0);
    NoIds(MAX_ID);
    var items := [Dec(0)];
    assert items[..0] == [];
    IdsOfNext(items, MAX_ID, 0);
    assert items[..0 + 1] == items;
    assert D.Id(items[0].s, MAX_ID) == Ok(0);
    assert IdsOf(items[..0], MAX_ID).value + [0] == [0];
  }

  lemma DigestGood()
    ensures DigestOf(Zeros, Object(DigestObject()), 0) == Some(Digest(Derivation(), Nulls(32), true, [0]))
  {
    hide D.Print, D.Parse, IdsOf;
    IdsGood();
    assert DigestHead(Zeros, DigestObject()) == Ok((Derivation(), Nulls(32)));
  }

  function TheKey(): Key {
    Key(Area(32, 32, 2 * HDR, REGION), Sha256, Derivation())
  }

  lemma KeysGood()
    ensures var keys: Obj := map[D.Print(0) := Object(KeyObject())];
      KeysOk(Zeros, keys, 2 * HDR, PAYLOAD) && KeysByNumber(Zeros, keys, 2 * HDR, PAYLOAD) == map[0 := TheKey()]
  {
    hide D.Print, D.Parse, KeyOf, KeyObject;
    KeyGood();
    var keys: Obj := map[D.Print(0) := Object(KeyObject())];
    forall n: u32 | D.Print(n) in keys ensures n == 0 {
      D.ParseInvertsPrint(D.Print(0), n);
      D.ParseInvertsPrint(D.Print(0), 0);
    }
    D.ParseInvertsPrint(D.Print(0), 0);
    assert forall n: u32 :: D.Print(n) in keys <==> n == 0;
  }

  lemma DigestsGood()
    ensures var digests: Obj := map[D.Print(0) := Object(DigestObject())];
      var slots := map[0 := SlotFrom(TheKey(), Digest(Derivation(), Nulls(32), true, [0]))];
      DigestsOk(Zeros, digests, 0, map[0 := TheKey()]) && SlotsAre(Zeros, digests, 0, map[0 := TheKey()], slots)
  {
    hide D.Print, D.Parse, DigestOf, DigestObject;
    DigestGood();
    D.ParseInvertsPrint(D.Print(0), 0);
    var digests: Obj := map[D.Print(0) := Object(DigestObject())];
    assert forall d, n :: Binds(Zeros, digests, 0, d, n) <==> d == D.Print(0) && n == 0;
    assert Binds(Zeros, digests, 0, D.Print(0), 0);
  }

  function TheMetadata(): (m: Metadata)
    ensures 0 in m.slots && m.slots[0].digest == Nulls(32)
  {
    Metadata(PAYLOAD, LENGTH - PAYLOAD, map[0 := SlotFrom(TheKey(), Digest(Derivation(), Nulls(32), true, [0]))])
  }

  lemma Passed()
    ensures Passes(Zeros, Root(), HDR, LENGTH, D.Print(0), Segment(0, PAYLOAD, LENGTH - PAYLOAD), TheMetadata())
  {
    hide D.Print, D.Parse, ConfigOf, SegmentOf, SegmentFlags, KeysOk, KeysByNumber, DigestsOk, SlotsAre;
    hide KeyObject, DigestObject, SegmentObject, Config;
    ConfigIs();
    SegmentGood();
    KeysGood();
    DigestsGood();
    assert RootOk(Root()) && AreaEnd(Root(), HDR) == PAYLOAD;
    assert SegmentIs(Root(), HDR, LENGTH, D.Print(0), Segment(0, PAYLOAD, LENGTH - PAYLOAD));
    assert PartsOk(Zeros, Root(), 2 * HDR, PAYLOAD, 0);
  }

  /** The document is accepted, and its one keyslot is a slot. */
  lemma Accepted()
    ensures exists d :: Accepts(Zeros, Root(), HDR, LENGTH, d, TheMetadata())
  {
    hide Passes, Accepts, Root, TheMetadata, D.Print;
    Passed();
    var d := PassesIsAccepted(Zeros, Root(), HDR, LENGTH, D.Print(0), Segment(0, PAYLOAD, LENGTH - PAYLOAD),
      TheMetadata());
  }

  // ---- the image around the document ----

  /** Every text decodes to a hash name, every hash and derivation is zero, every JSON text to `raw`. */
  function Coded(raw: Raw): Codecs {
    Codecs(_ => Some("sha256"), _ => true, Zeros, _ => Some(raw),
      Primitives((h, b) => Nulls(HashSize(h)), (k, b, n: nat) => Nulls(n)))
  }

  function HeaderByte(offset: nat, i: nat): Byte {
    if i < 6 then Magic(offset)[i] else if i == 7 then 2
    else if i == 14 || (i == 262 && offset != 0) then 0x40 else 0
  }

  function Block(offset: nat): (b: seq<Byte>)
    ensures |b| == HDR
  {
    seq(HDR, i requires 0 <= i => HeaderByte(offset, i))
  }

  function File(): (file: seq<Byte>)
    ensures |file| == LENGTH
  {
    Block(0) + Block(HDR) + Nulls(LENGTH - 2 * HDR)
  }

  lemma BeEight(b: seq<Byte>)
    requires |b| == 8 && forall i :: 0 <= i < 6 ==> b[i] == 0
    ensures Be(b) == 256 * b[6] as int + b[7] as int
  {
    BeZero(b[..6]);
    assert b[..7][..6] == b[..6] && b[..8] == b;
    assert Be(b[..7]) == 256 * Be(b[..7][..6]) + b[6] as int;
  }

  lemma {:induction false} BeZero(b: seq<Byte>)
    requires forall i :: 0 <= i < |b| ==> b[i] == 0
    ensures Be(b) == 0
  {
    if b != [] {
      BeZero(b[..|b| - 1]);
    }
  }

  lemma EmptyText(raw: Raw, b: seq<Byte>)
    requires b != [] && forall i :: 0 <= i < |b| ==> b[i] == 0
    ensures Padded(b) == Some([]) && CString(Coded(raw), b) == Ok("sha256")
  {
    assert PaddedIs(b, []);
    PaddedIsPadded(b, []);
  }

  function TheHeader(): Header {
    Header(HDR, 0, "sha256", "sha256", "sha256", Root())
  }

  lemma BlockBytes(offset: nat)
    requires offset == 0 || offset == HDR
    ensures var b := Block(offset);
      && b[..6] == Magic(offset) && b[6..8] == [0, 2]
      && Be(b[8..16]) == HDR && Be(b[16..24]) == 0 && Be(b[256..264]) == offset
      && (forall i :: 16 <= i < HDR && i != 262 ==> b[i] == 0)
  {
    hide Be;
    var b := Block(offset);
    BeEight(b[8..16]);
    BeEight(b[16..24]);
    BeEight(b[256..264]);
    assert forall i :: 0 <= i < 6 ==> b[i] == Magic(offset)[i];
  }

  lemma SizeIsPower()
    ensures HeaderSize(HDR)
  {
    assert PowerOfTwo(16) && PowerOfTwo(64) && PowerOfTwo(256) && PowerOfTwo(1024) && PowerOfTwo(4096);
  }

  lemma BlockIsHeader(raw: Raw, offset: nat)
    requires (offset == 0 || offset == HDR) && StrictTree(raw) && Denote(raw) == Root()
    ensures IsHeader(Coded(raw), Block(offset), offset, TheHeader())
  {
    hide StrictTree, Denote, Root, Padded, CString, Be, Block, PowerOfTwo;
    var b, x := Block(offset), Coded(raw);
    BlockBytes(offset);
    SizeIsPower();
    EmptyText(raw, b[24..72]);
    EmptyText(raw, b[72..104]);
    EmptyText(raw, b[168..208]);
    EmptyText(raw, b[208..256]);
    EmptyText(raw, b[FIXED..]);
    assert AlgOf(x, b) == Ok(Sha256);
    assert b[448..480] == Nulls(32);
    assert Signed(x, b, Sha256);
    assert JsonOf(x, b[FIXED..]) == Ok(Root());
    assert Checked(x, b, offset, TheHeader());
    CheckedIsHeader(x, b, offset, TheHeader());
  }

  lemma FileIsDescribed(raw: Raw) returns (m: Metadata)
    requires StrictTree(raw) && Denote(raw) == Root()
    ensures IsMetadata(Coded(raw), File(), m) && 0 in m.slots && m.slots[0].digest == Nulls(32)
  {
    hide StrictTree, Denote, Root, Block, IsHeader, HeaderAt, Accepts;
    var file, x := File(), Coded(raw);
    assert file[0..HDR] == Block(0) && file[HDR..2 * HDR] == Block(HDR);
    BlockIsHeader(raw, 0);
    BlockIsHeader(raw, HDR);
    HeaderAtIsHeader(x, file, 0, TheHeader());
    HeaderAtIsHeader(x, file, HDR, TheHeader());
    Accepted();
    m := TheMetadata();
    var d :| Accepts(Zeros, Root(), HDR, LENGTH, d, m);
    assert Describes(x, file, TheHeader(), d, m);
  }

  /** There is an image with a password that unlocks it, so that sessions begin and can be reopened. */
  lemma Unlockable() returns (x: Codecs, g: Setup, m: Metadata, password: seq<Byte>)
    ensures Sized(x.prims) && Lawful(g.cipher) && IsMetadata(x, File(), m) && MetadataFits(m, |File()|)
    ensures Yields(x, g.cipher, File(), m, 0, password, g)
    ensures Runs.Session(g, File(), [])
  {
    hide IsMetadata, Lawful, Root, File, KeyFrom;
    RootShallow();
    var raw := Representable(Root(), 0);
    StrictIsStrictTree(raw);
    m := FileIsDescribed(raw);
    x, password := Coded(raw), [];
    FileFits(x, File(), m);
    XorCipherIsLawful();
    var s := m.slots[0];
    g := Setup(XorCipher, KeyFrom(x, XorCipher, AreaBytes(File(), s), s, password), m.offset, m.length, |File()|,
      ReadWriteMode);
    YieldsFits(x, XorCipher, File(), m, 0, password, g);
  }

  lemma FlatShallow(o: Obj, depth: nat)
    requires depth < MAX_DEPTH && forall k :: k in o ==> o[k].Text? || (o[k].Number? && Integer64(o[k].n))
    ensures Shallow(Object(o), depth)
  {
  }

  lemma NestedShallow(o: Obj, depth: nat)
    requires depth <= MAX_DEPTH && forall k :: k in o ==> Shallow(o[k], depth + 1)
    ensures Shallow(Object(o), depth)
  {
  }

  lemma SegmentsShallow()
    ensures Shallow(Object(map[D.Print(0) := Object(SegmentObject())]), 1)
  {
    hide Shallow, D.Print;
    FlatShallow(SegmentObject(), 2);
    NestedShallow(map[D.Print(0) := Object(SegmentObject())], 1);
  }

  lemma KeysShallow()
    ensures Shallow(Object(map[D.Print(0) := Object(KeyObject())]), 1)
  {
    hide Shallow, D.Print;
    FlatShallow(AreaObject(), 3);
    FlatShallow(KdfObject(), 3);
    FlatShallow(AfObject(), 3);
    LeafShallow(3);
    NestedShallow(KeyObject(), 2) by { hide AreaObject, KdfObject, AfObject; }
    NestedShallow(map[D.Print(0) := Object(KeyObject())], 1);
  }

  lemma DigestsShallow()
    ensures Shallow(Object(map[D.Print(0) := Object(DigestObject())]), 1)
  {
    hide Shallow, D.Print;
    LeafShallow(3);
    NestedShallow(DigestObject(), 2);
    NestedShallow(map[D.Print(0) := Object(DigestObject())], 1);
  }

  lemma LeafShallow(depth: nat)
    requires depth < MAX_DEPTH
    ensures forall s: string :: Shallow(Text(s), depth)
    ensures forall n: int :: Integer64(n) ==> Shallow(Number(n), depth)
    ensures forall s: string :: Shallow(Array([Text(s)]), depth)
  {
  }

  lemma RootShallow()
    ensures Shallow(Root(), 0)
  {
    hide Shallow, KeyObject, DigestObject, SegmentObject, D.Print;
    FlatShallow(Config(), 1);
    FlatShallow(map[], 1);
    SegmentsShallow();
    KeysShallow();
    DigestsShallow();
    NestedShallow(Root().fields, 0);
  }
}
