/** The serialised form of an ebox (ebox.c, version 3) and its parser.  The parser's cursor is the
    rest of the bytes. */
module EboxFormat {
  import opened Bits
  import opened Buffers

  type Bytes = seq<byte>

  const EBOX_V2: byte := 2
  const EBOX_V3: byte := 3
  const EBOX_KEY: byte := 2
  const EBOX_STREAM: byte := 3
  const EBOX_PRIMARY: byte := 1
  const EBOX_RECOVERY: byte := 2
  const PART_END: byte := 0
  const PART_PUBKEY: byte := 1
  const PART_NAME: byte := 2
  const PART_CAK: byte := 3
  const PART_GUID: byte := 4
  const PART_BOX: byte := 5
  const PART_SLOT: byte := 6
  const SLOT_KEY_MGMT: byte := 0x9D

  /** A sealed box as part of an ebox.  Its ephemeral public key, which opening it needs, is not written
      with it: all boxes of an ebox for one curve share a key, kept in the ebox itself. */
  datatype Box = Box(cipher: Bytes, kdf: Bytes, nonce: Bytes, curve: Bytes, pub: Bytes, ephem: Bytes, iv: Bytes, enc: Bytes)

  datatype Part = Part(guid: Bytes, name: Option<Bytes>, cak: Option<Bytes>, slot: byte, box: Box)

  datatype Config = Config(kind: byte, n: byte, m: byte, nonce: Bytes, parts: seq<Part>)

  datatype Ephemeral = Ephemeral(curve: Bytes, pub: Bytes)

  datatype Stored = Stored(version: byte, kind: byte, cipher: Bytes, iv: Bytes, enc: Bytes,
                           ephemerals: seq<Ephemeral>, configs: seq<Config>)

  /** What the key libraries accept: curve names, points on a curve, public keys. */
  datatype Keys = Keys(curve: Bytes -> bool, point: (Bytes, Bytes) -> bool, key: Bytes -> bool)

  // ---- buffer primitives ----

  function String8(s: Bytes): Bytes
    requires |s| < 256
  {
    [|s|] + s
  }

  function U32(n: nat): Bytes
    requires n < B32
  {
    [n / 0x1000000, n / 0x10000 % 256, n / 0x100 % 256, n % 256]
  }

  function FromU32(a: int, b: int, c: int, d: int): int {
    0x1000000 * a + 0x10000 * b + 0x100 * c + d
  }

  function GetU8(s: Bytes): (r: Option<(byte, Bytes)>)
    ensures r.Some? ==> |r.value.1| < |s|
  {
    if s == [] then None else Some((s[0], s[1..]))
  }

  function GetString8(s: Bytes): (r: Option<(Bytes, Bytes)>)
    ensures r.Some? ==> |r.value.1| < |s|
  {
    if s == [] || |s| - 1 < s[0] then None
    else
      var n: nat := s[0];
      Some((s[1..1 + n], s[1 + n..]))
  }

  /** A string that may not contain NUL. */
  function GetCString8(s: Bytes): (r: Option<(Bytes, Bytes)>)
    ensures r.Some? ==> |r.value.1| < |s|
  {
    var r := GetString8(s);
    if r.Some? && 0 in r.value.0 then None else r
  }

  function GetString(s: Bytes): (r: Option<(Bytes, Bytes)>)
    ensures r.Some? ==> |r.value.1| < |s|
  {
    if |s| < 4 then None
    else
      var n := FromU32(s[0], s[1], s[2], s[3]);
      if |s| - 4 < n then None else Some((s[4..4 + n], s[4 + n..]))
  }

  lemma String8Reads(x: Bytes, rest: Bytes)
    requires |x| < 256
    ensures GetString8(String8(x) + rest) == Some((x, rest))
  {
    var s := String8(x) + rest;
    assert s[1..1 + |x|] == x && s[1 + |x|..] == rest;
  }

  lemma StringReads(x: Bytes, rest: Bytes)
    requires |x| < B32
    ensures GetString(U32(|x|) + x + rest) == Some((x, rest))
  {
    var s := U32(|x|) + x + rest;
    FourBytes(|x|);
    assert s[0] == U32(|x|)[0] && s[1] == U32(|x|)[1] && s[2] == U32(|x|)[2] && s[3] == U32(|x|)[3];
    assert s[4..4 + |x|] == x && s[4 + |x|..] == rest;
  }

  lemma FourBytes(n: nat)
    requires n < B32
    ensures FromU32(n / 0x1000000, n / 0x10000 % 256, n / 0x100 % 256, n % 256) == n
  {
    Shifts(n);
    var h, l := Euclid(n, 0x100);
    var h', l' := Euclid(h, 0x100);
    var h'', l'' := Euclid(h', 0x100);
  }

  lemma Shifts(n: nat)
    ensures n / 0x100 / 0x100 == n / 0x10000 && n / 0x10000 / 0x100 == n / 0x1000000
  {
  }

  lemma ByteReads(b: byte, rest: Bytes)
    ensures GetU8([b] + rest) == Some((b, rest))
  {
  }

  // ---- boxes ----

  function PutBox(b: Box): Bytes
    requires BoxFits(b)
  {
    String8(b.cipher) + (String8(b.kdf) + (String8(b.nonce)
    + (String8(b.curve) + (String8(b.pub) + (String8(b.iv) + (U32(|b.enc|) + b.enc))))))
  }

  predicate BoxFits(b: Box) {
    |b.cipher| < 256 && |b.kdf| < 256 && |b.nonce| < 256 && |b.curve| < 256 && |b.pub| < 256 && |b.iv| < 256 && |b.enc| < B32
  }

  /** A curve name and a point on it. */
  function GetPoint(keys: Keys, s: Bytes): (r: Option<((Bytes, Bytes), Bytes)>)
    ensures r.Some? ==> |r.value.1| < |s|
  {
    var curve := GetCString8(s);
    if curve.None? || !keys.curve(curve.value.0) then None
    else
      var pub := GetString8(curve.value.1);
      if pub.None? || !keys.point(curve.value.0, pub.value.0) then None
      else Some(((curve.value.0, pub.value.0), pub.value.1))
  }

  /** Cipher, key derivation and nonce. */
  function GetBoxHead(s: Bytes): (r: Option<((Bytes, Bytes, Bytes), Bytes)>)
    ensures r.Some? ==> |r.value.1| < |s|
  {
    var cipher := GetCString8(s);
    if cipher.None? then None
    else
      var kdf := GetCString8(cipher.value.1);
      if kdf.None? then None
      else
        var nonce := GetString8(kdf.value.1);
        if nonce.None? then None else Some(((cipher.value.0, kdf.value.0, nonce.value.0), nonce.value.1))
  }

  /** Initialisation vector and ciphertext. */
  function GetBoxTail(s: Bytes): (r: Option<((Bytes, Bytes), Bytes)>)
    ensures r.Some? ==> |r.value.1| < |s|
  {
    var iv := GetString8(s);
    if iv.None? then None
    else
      var enc := GetString(iv.value.1);
      if enc.None? then None else Some(((iv.value.0, enc.value.0), enc.value.1))
  }

  /** The box field; the ephemeral key for its curve must have come before, and becomes the box's. */
  function GetBox(keys: Keys, ephemerals: seq<Ephemeral>, s: Bytes): (r: Option<(Box, Bytes)>)
    ensures r.Some? ==> |r.value.1| < |s|
  {
    var head := GetBoxHead(s);
    if head.None? then None
    else
      var point := GetPoint(keys, head.value.1);
      if point.None? || Lookup(ephemerals, point.value.0.0).None? then None
      else
        var tail := GetBoxTail(point.value.1);
        if tail.None? then None
        else
          var (cipher, kdf, nonce) := head.value.0;
          var (curve, pub) := point.value.0;
          Some((Box(cipher, kdf, nonce, curve, pub, Lookup(ephemerals, curve).value, tail.value.0.0, tail.value.0.1), tail.value.1))
  }

  /** The same, folded for the proofs about fields. */
  function BoxOf(keys: Keys, ephemerals: seq<Ephemeral>, s: Bytes, depth: nat): (r: Option<(Box, Bytes)>)
    ensures r.Some? ==> |r.value.1| < |s|
    decreases depth, |s|
  {
    if depth > 0 then BoxOf(keys, ephemerals, s, depth - 1) else GetBox(keys, ephemerals, s)
  }

  lemma BoxIs(keys: Keys, ephemerals: seq<Ephemeral>, s: Bytes)
    ensures BoxOf(keys, ephemerals, s, 4) == GetBox(keys, ephemerals, s)
  {
    assert BoxOf(keys, ephemerals, s, 4) == BoxOf(keys, ephemerals, s, 3) == BoxOf(keys, ephemerals, s, 2);
    assert BoxOf(keys, ephemerals, s, 2) == BoxOf(keys, ephemerals, s, 1) == BoxOf(keys, ephemerals, s, 0);
  }

  /** ebox_get_ephem_for_nid: the first key for the curve. */
  function Lookup(ephemerals: seq<Ephemeral>, curve: Bytes): Option<Bytes> {
    if ephemerals == [] then None
    else if ephemerals[0].curve == curve then Some(ephemerals[0].pub)
    else Lookup(ephemerals[1..], curve)
  }

  ghost predicate BoxReadable(keys: Keys, ephemerals: seq<Ephemeral>, b: Box) {
    && BoxFits(b) && 0 !in b.cipher && 0 !in b.kdf && 0 !in b.curve
    && keys.curve(b.curve) && keys.point(b.curve, b.pub) && Lookup(ephemerals, b.curve) == Some(b.ephem)
  }

  lemma BoxReads(keys: Keys, ephemerals: seq<Ephemeral>, b: Box, rest: Bytes)
    requires BoxReadable(keys, ephemerals, b)
    ensures GetBox(keys, ephemerals, PutBox(b) + rest) == Some((b, rest))
  {
    var t6 := String8(b.iv) + (U32(|b.enc|) + b.enc);
    var t4 := String8(b.curve) + (String8(b.pub) + t6);
    BoxHeadReads(b, t4, rest);
    BoxPointReads(keys, b, t6, rest);
    BoxTailReads(b, rest);
  }

  lemma BoxHeadReads(b: Box, t4: Bytes, rest: Bytes)
    requires BoxFits(b) && 0 !in b.cipher && 0 !in b.kdf
    ensures GetBoxHead((String8(b.cipher) + (String8(b.kdf) + (String8(b.nonce) + t4))) + rest)
         == Some(((b.cipher, b.kdf, b.nonce), t4 + rest))
  {
    Front(b.cipher, String8(b.kdf) + (String8(b.nonce) + t4), rest);
    Front(b.kdf, String8(b.nonce) + t4, rest);
    Front(b.nonce, t4, rest);
  }

  lemma BoxPointReads(keys: Keys, b: Box, t6: Bytes, rest: Bytes)
    requires BoxFits(b) && 0 !in b.curve && keys.curve(b.curve) && keys.point(b.curve, b.pub)
    ensures GetPoint(keys, (String8(b.curve) + (String8(b.pub) + t6)) + rest) == Some(((b.curve, b.pub), t6 + rest))
  {
    Front(b.curve, String8(b.pub) + t6, rest);
    Front(b.pub, t6, rest);
  }

  lemma BoxTailReads(b: Box, rest: Bytes)
    requires BoxFits(b)
    ensures GetBoxTail((String8(b.iv) + (U32(|b.enc|) + b.enc)) + rest) == Some(((b.iv, b.enc), rest))
  {
    Front(b.iv, U32(|b.enc|) + b.enc, rest);
    StringReads(b.enc, rest);
  }

  /** A string at the front of what is left. */
  lemma Front(x: Bytes, more: Bytes, rest: Bytes)
    requires |x| < 256
    ensures GetString8((String8(x) + more) + rest) == Some((x, more + rest))
    ensures 0 !in x ==> GetCString8((String8(x) + more) + rest) == Some((x, more + rest))
  {
    AppendAssoc(String8(x), more, rest);
    String8Reads(x, more + rest);
  }

  // ---- parts ----

  /** What has been read of a part. */
  datatype Fields = Fields(pubkey: Option<(Bytes, Bytes)>, guid: Option<Bytes>, name: Option<Bytes>,
                           cak: Option<Bytes>, slot: byte, box: Option<Box>)

  const NO_FIELDS := Fields(None, None, None, None, SLOT_KEY_MGMT, None)

  /** One tagged field; unknown tags with the optional flag are skipped. */
  function GetField(keys: Keys, ephemerals: seq<Ephemeral>, tag: byte, f: Fields, s: Bytes): (r: Option<(Fields, Bytes)>)
    ensures r.Some? ==> |r.value.1| < |s|
  {
    var kind := tag % 128;
    if kind == PART_PUBKEY then
      var x := GetPoint(keys, s);
      if x.None? then None else Some((f.(pubkey := Some(x.value.0)), x.value.1))
    else if kind == PART_CAK then
      var x := GetString(s);
      if x.None? || !keys.key(x.value.0) then None else Some((f.(cak := Some(x.value.0)), x.value.1))
    else if kind == PART_NAME then
      var x := GetCString8(s);
      if x.None? then None else Some((f.(name := Some(x.value.0)), x.value.1))
    else if kind == PART_SLOT then
      var x := GetU8(s);
      if x.None? then None else Some((f.(slot := x.value.0), x.value.1))
    else if kind == PART_GUID then
      var x := GetString8(s);
      if x.None? || |x.value.0| != 16 then None else Some((f.(guid := Some(x.value.0)), x.value.1))
    else if kind == PART_BOX then
      var x := BoxOf(keys, ephemerals, s, 4);
      if x.None? then None else Some((f.(box := Some(x.value.0)), x.value.1))
    else if tag >= 128 then
      var x := GetString8(s);
      if x.None? then None else Some((f, x.value.1))
    else None
  }

  /** Fields up to the end tag. */
  function GetFields(keys: Keys, ephemerals: seq<Ephemeral>, f: Fields, s: Bytes): (r: Option<(Fields, Bytes)>)
    ensures r.Some? ==> |r.value.1| < |s|
    decreases |s|
  {
    var tag := GetU8(s);
    if tag.None? then None
    else if tag.value.0 == PART_END then Some((f, tag.value.1))
    else
      var x := GetField(keys, ephemerals, tag.value.0, f, tag.value.1);
      if x.None? then None else GetFields(keys, ephemerals, x.value.0, x.value.1)
  }

  /** sshbuf_get_ebox_part. */
  function GetPart(keys: Keys, ephemerals: seq<Ephemeral>, s: Bytes): (r: Option<(Part, Bytes)>)
    ensures r.Some? ==> |r.value.1| < |s|
  {
    var x := GetFields(keys, ephemerals, NO_FIELDS, s);
    if x.None? then None
    else
      var f := x.value.0;
      if f.box.None? || f.guid.None? then None
      else if f.pubkey.Some? && f.pubkey.value != (f.box.value.curve, f.box.value.pub) then None
      else Some((Part(f.guid.value, f.name, f.cak, f.slot, f.box.value), x.value.1))
  }

  predicate PartFits(p: Part) {
    |p.guid| == 16 && (p.name.Some? ==> |p.name.value| < 256) && (p.cak.Some? ==> |p.cak.value| < B32) && BoxFits(p.box)
  }

  ghost predicate PartReadable(keys: Keys, ephemerals: seq<Ephemeral>, p: Part) {
    && PartFits(p) && (p.name.Some? ==> 0 !in p.name.value) && (p.cak.Some? ==> keys.key(p.cak.value))
    && BoxReadable(keys, ephemerals, p.box)
  }

  function PutName(p: Part): Bytes
    requires PartFits(p)
  {
    if p.name.Some? then [PART_NAME] + String8(p.name.value) else []
  }

  function PutCak(p: Part): Bytes
    requires PartFits(p)
  {
    if p.cak.Some? then [PART_CAK] + (U32(|p.cak.value|) + p.cak.value) else []
  }

  function PutSlot(p: Part): Bytes {
    if p.slot != SLOT_KEY_MGMT then [PART_SLOT, p.slot] else []
  }

  /** sshbuf_put_ebox_part: absent fields and the usual slot are left out. */
  function PutPart(p: Part): Bytes
    requires PartFits(p)
  {
    ([PART_GUID] + String8(p.guid)) + (PutName(p) + (PutCak(p) + (PutSlot(p) + (([PART_BOX] + PutBox(p.box)) + [PART_END]))))
  }

  /** GetFields, folded. */
  ghost function FieldsOf(keys: Keys, ephemerals: seq<Ephemeral>, f: Fields, s: Bytes, depth: nat): Option<(Fields, Bytes)>
    decreases depth, |s|
  {
    if depth > 0 then FieldsOf(keys, ephemerals, f, s, depth - 1) else GetFields(keys, ephemerals, f, s)
  }

  lemma FieldsAre(keys: Keys, ephemerals: seq<Ephemeral>, f: Fields, s: Bytes)
    ensures FieldsOf(keys, ephemerals, f, s, 4) == GetFields(keys, ephemerals, f, s)
  {
    assert FieldsOf(keys, ephemerals, f, s, 4) == FieldsOf(keys, ephemerals, f, s, 3) == FieldsOf(keys, ephemerals, f, s, 2);
    assert FieldsOf(keys, ephemerals, f, s, 2) == FieldsOf(keys, ephemerals, f, s, 1) == FieldsOf(keys, ephemerals, f, s, 0);
  }

  /** One field at the front: its tag, its content, and the rest of the fields. */
  lemma FieldReads(keys: Keys, ephemerals: seq<Ephemeral>, f: Fields, tag: byte, body: Bytes, rest: Bytes, g: Fields)
    requires tag != PART_END && GetField(keys, ephemerals, tag, f, body + rest) == Some((g, rest))
    ensures FieldsOf(keys, ephemerals, f, ([tag] + body) + rest, 4) == FieldsOf(keys, ephemerals, g, rest, 4)
  {
    AppendAssoc([tag], body, rest);
    ByteReads(tag, body + rest);
    FieldsAre(keys, ephemerals, f, ([tag] + body) + rest);
    FieldsAre(keys, ephemerals, g, rest);
  }

  lemma EndReads(keys: Keys, ephemerals: seq<Ephemeral>, f: Fields, rest: Bytes)
    ensures FieldsOf(keys, ephemerals, f, [PART_END] + rest, 4) == Some((f, rest))
  {
    ByteReads(PART_END, rest);
    FieldsAre(keys, ephemerals, f, [PART_END] + rest);
  }

  lemma PartReads(keys: Keys, ephemerals: seq<Ephemeral>, p: Part, rest: Bytes)
    requires PartReadable(keys, ephemerals, p)
    ensures GetPart(keys, ephemerals, PutPart(p) + rest) == Some((p, rest))
  {
    AllFieldsRead(keys, ephemerals, p, rest);
    FieldsAre(keys, ephemerals, NO_FIELDS, PutPart(p) + rest);
  }

  lemma AllFieldsRead(keys: Keys, ephemerals: seq<Ephemeral>, p: Part, rest: Bytes)
    requires PartReadable(keys, ephemerals, p)
    ensures FieldsOf(keys, ephemerals, NO_FIELDS, PutPart(p) + rest, 4)
         == Some((Fields(None, Some(p.guid), p.name, p.cak, p.slot, Some(p.box)), rest))
  {
    var t5 := ([PART_BOX] + PutBox(p.box)) + [PART_END];
    var t4 := PutSlot(p) + t5;
    var t3 := PutCak(p) + t4;
    var t2 := PutName(p) + t3;
    var f1 := Fields(None, Some(p.guid), None, None, SLOT_KEY_MGMT, None);
    var f2 := Fields(None, Some(p.guid), p.name, None, SLOT_KEY_MGMT, None);
    var f3 := Fields(None, Some(p.guid), p.name, p.cak, SLOT_KEY_MGMT, None);
    var f4 := Fields(None, Some(p.guid), p.name, p.cak, p.slot, None);
    GuidReads(keys, ephemerals, p, t2, rest);
    NameReads(keys, ephemerals, p, f1, t3, rest);
    CakReads(keys, ephemerals, p, f2, t4, rest);
    SlotReads(keys, ephemerals, p, f3, t5, rest);
    LastReads(keys, ephemerals, p, f4, rest);
  }

  lemma GuidReads(keys: Keys, ephemerals: seq<Ephemeral>, p: Part, more: Bytes, rest: Bytes)
    requires PartReadable(keys, ephemerals, p)
    ensures FieldsOf(keys, ephemerals, NO_FIELDS, (([PART_GUID] + String8(p.guid)) + more) + rest, 4)
         == FieldsOf(keys, ephemerals, NO_FIELDS.(guid := Some(p.guid)), more + rest, 4)
  {
    AppendAssoc([PART_GUID] + String8(p.guid), more, rest);
    String8Reads(p.guid, more + rest);
    FieldReads(keys, ephemerals, NO_FIELDS, PART_GUID, String8(p.guid), more + rest, NO_FIELDS.(guid := Some(p.guid)));
  }

  lemma LastReads(keys: Keys, ephemerals: seq<Ephemeral>, p: Part, f: Fields, rest: Bytes)
    requires PartReadable(keys, ephemerals, p)
    ensures FieldsOf(keys, ephemerals, f, (([PART_BOX] + PutBox(p.box)) + [PART_END]) + rest, 4) == Some((f.(box := Some(p.box)), rest))
  {
    AppendAssoc([PART_BOX] + PutBox(p.box), [PART_END], rest);
    BoxReads(keys, ephemerals, p.box, [PART_END] + rest);
    BoxIs(keys, ephemerals, PutBox(p.box) + ([PART_END] + rest));
    BoxField(keys, ephemerals, f, PutBox(p.box), [PART_END] + rest, p.box);
    EndReads(keys, ephemerals, f.(box := Some(p.box)), rest);
  }

  lemma BoxField(keys: Keys, ephemerals: seq<Ephemeral>, f: Fields, body: Bytes, rest: Bytes, b: Box)
    requires BoxOf(keys, ephemerals, body + rest, 4) == Some((b, rest))
    ensures FieldsOf(keys, ephemerals, f, ([PART_BOX] + body) + rest, 4) == FieldsOf(keys, ephemerals, f.(box := Some(b)), rest, 4)
  {
    FieldReads(keys, ephemerals, f, PART_BOX, body, rest, f.(box := Some(b)));
  }

  lemma NameField(keys: Keys, ephemerals: seq<Ephemeral>, f: Fields, body: Bytes, rest: Bytes, x: Bytes)
    requires GetCString8(body + rest) == Some((x, rest))
    ensures FieldsOf(keys, ephemerals, f, ([PART_NAME] + body) + rest, 4) == FieldsOf(keys, ephemerals, f.(name := Some(x)), rest, 4)
  {
    FieldReads(keys, ephemerals, f, PART_NAME, body, rest, f.(name := Some(x)));
  }

  lemma CakField(keys: Keys, ephemerals: seq<Ephemeral>, f: Fields, body: Bytes, rest: Bytes, x: Bytes)
    requires GetString(body + rest) == Some((x, rest)) && keys.key(x)
    ensures FieldsOf(keys, ephemerals, f, ([PART_CAK] + body) + rest, 4) == FieldsOf(keys, ephemerals, f.(cak := Some(x)), rest, 4)
  {
    FieldReads(keys, ephemerals, f, PART_CAK, body, rest, f.(cak := Some(x)));
  }

  lemma SlotField(keys: Keys, ephemerals: seq<Ephemeral>, f: Fields, rest: Bytes, x: byte)
    ensures FieldsOf(keys, ephemerals, f, ([PART_SLOT] + [x]) + rest, 4) == FieldsOf(keys, ephemerals, f.(slot := x), rest, 4)
  {
    ByteReads(x, rest);
    FieldReads(keys, ephemerals, f, PART_SLOT, [x], rest, f.(slot := x));
  }

  lemma NameReads(keys: Keys, ephemerals: seq<Ephemeral>, p: Part, f: Fields, more: Bytes, rest: Bytes)
    requires PartReadable(keys, ephemerals, p) && f.name.None?
    ensures FieldsOf(keys, ephemerals, f, (PutName(p) + more) + rest, 4) == FieldsOf(keys, ephemerals, f.(name := p.name), more + rest, 4)
  {
    AppendAssoc(PutName(p), more, rest);
    if p.name.Some? {
      String8Reads(p.name.value, more + rest);
      NameField(keys, ephemerals, f, String8(p.name.value), more + rest, p.name.value);
    } else {
      assert PutName(p) + (more + rest) == more + rest && f.(name := p.name) == f;
    }
  }

  lemma CakReads(keys: Keys, ephemerals: seq<Ephemeral>, p: Part, f: Fields, more: Bytes, rest: Bytes)
    requires PartReadable(keys, ephemerals, p) && f.cak.None?
    ensures FieldsOf(keys, ephemerals, f, (PutCak(p) + more) + rest, 4) == FieldsOf(keys, ephemerals, f.(cak := p.cak), more + rest, 4)
  {
    AppendAssoc(PutCak(p), more, rest);
    if p.cak.Some? {
      StringReads(p.cak.value, more + rest);
      CakField(keys, ephemerals, f, U32(|p.cak.value|) + p.cak.value, more + rest, p.cak.value);
    } else {
      assert PutCak(p) + (more + rest) == more + rest && f.(cak := p.cak) == f;
    }
  }

  lemma SlotReads(keys: Keys, ephemerals: seq<Ephemeral>, p: Part, f: Fields, more: Bytes, rest: Bytes)
    requires f.slot == SLOT_KEY_MGMT
    ensures FieldsOf(keys, ephemerals, f, (PutSlot(p) + more) + rest, 4) == FieldsOf(keys, ephemerals, f.(slot := p.slot), more + rest, 4)
  {
    AppendAssoc(PutSlot(p), more, rest);
    if p.slot != SLOT_KEY_MGMT {
      assert PutSlot(p) == [PART_SLOT] + [p.slot];
      SlotField(keys, ephemerals, f, more + rest, p.slot);
    } else {
      assert PutSlot(p) + (more + rest) == more + rest && f.(slot := p.slot) == f;
    }
  }

  // Writing and reading of one part, folded for the proofs about lists of them.

  function PartBytes(p: Part, depth: nat): Bytes
    requires PartFits(p)
    decreases depth, p
  {
    if depth > 0 then PartBytes(p, depth - 1) else PutPart(p)
  }

  function PartOf(keys: Keys, ephemerals: seq<Ephemeral>, s: Bytes, depth: nat): (r: Option<(Part, Bytes)>)
    ensures r.Some? ==> |r.value.1| < |s|
    decreases depth, |s|
  {
    if depth > 0 then PartOf(keys, ephemerals, s, depth - 1) else GetPart(keys, ephemerals, s)
  }

  lemma FoldedPartReads(keys: Keys, ephemerals: seq<Ephemeral>, p: Part, rest: Bytes)
    requires PartReadable(keys, ephemerals, p)
    ensures PartOf(keys, ephemerals, PartBytes(p, 4) + rest, 4) == Some((p, rest))
  {
    assert PartBytes(p, 4) == PartBytes(p, 3) == PartBytes(p, 2) == PartBytes(p, 1) == PartBytes(p, 0);
    var s := PutPart(p) + rest;
    assert PartOf(keys, ephemerals, s, 4) == PartOf(keys, ephemerals, s, 3) == PartOf(keys, ephemerals, s, 2);
    assert PartOf(keys, ephemerals, s, 2) == PartOf(keys, ephemerals, s, 1) == PartOf(keys, ephemerals, s, 0);
    PartReads(keys, ephemerals, p, rest);
  }
}
