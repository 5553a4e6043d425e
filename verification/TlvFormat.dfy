/** The bytes of BER-TLV as tlv.c writes and reads them (sections 8.1.2 and 8.1.3 of ITU-T X.690,
    with raw tag numbers). */
module TlvFormat {
  import opened Bits
  import opened Buffers

  /** A tag, its length and what follows. */
  datatype Header = Header(tag: nat, len: nat, rest: seq<byte>)

  /** A row of tags.  room is the maxlen given to tlv_pushl. */
  datatype Forest =
    | Nothing
    | Leaf(tag: nat, room: nat, data: seq<byte>, next: Forest)
    | Group(tag: nat, room: nat, kids: Forest, next: Forest)

  /** The number a byte string spells, most significant byte first. */
  function BigEndian(s: seq<byte>): nat {
    if s == [] then 0 else BigEndian(s[..|s| - 1]) * 256 + s[|s| - 1]
  }

  /** A number without leading zero bytes; nothing at all for 0. */
  function Minimal(v: nat): seq<byte> {
    if v == 0 then [] else Minimal(v / 256) + [v % 256]
  }

  /** Bytes that the reader takes as one tag: one byte, or 31 in the low bits and then bytes up to the
      first without the continuation bit. */
  ghost predicate BerTag(b: seq<byte>) {
    |b| >= 1 && if b[0] % 32 != 31 then |b| == 1 else Ending(b[1..])
  }

  ghost predicate Ending(s: seq<byte>) {
    |s| >= 1 && s[|s| - 1] < 128 && forall i :: 0 <= i < |s| - 1 ==> s[i] >= 128
  }

  ghost predicate WellFormedTag(tag: nat) {
    tag < B32 && BerTag(Minimal(tag))
  }

  /** The continuation bytes of a tag, shifted into a 32-bit number. */
  function MoreTag(acc: nat, s: seq<byte>): Option<(nat, seq<byte>)>
    decreases |s|
  {
    if s == [] then None
    else
      var tag := (acc * 256 + s[0]) % B32;
      if s[0] >= 128 then MoreTag(tag, s[1..]) else Some((tag, s[1..]))
  }

  function ParseTag(s: seq<byte>): Option<(nat, seq<byte>)> {
    if s == [] then None
    else if s[0] % 32 == 31 then MoreTag(s[0], s[1..])
    else Some((s[0], s[1..]))
  }

  /** A length: one byte below 128, or a count of one to four bytes and then those. */
  function ParseLen(s: seq<byte>): Option<(nat, seq<byte>)> {
    if s == [] then None
    else if s[0] < 128 then Some((s[0], s[1..]))
    else
      var octs := s[0] - 128;
      if octs < 1 || octs > 4 || |s| - 1 < octs then None
      else Some((BigEndian(s[1..1 + octs]), s[1 + octs..]))
  }

  /** What tlv_read_tag makes of the rest of the current context. */
  function ParseHeader(s: seq<byte>): (r: Option<Header>)
    ensures r.Some? ==> r.value.len <= |r.value.rest| < |s| && r.value.rest == s[|s| - |r.value.rest|..]
  {
    TailOfTag(s);
    var tag := ParseTag(s);
    if tag.None? then None
    else
      TailOfLen(tag.value.1);
      var len := ParseLen(tag.value.1);
      if len.None? || |len.value.1| < len.value.0 then None
      else Some(Header(tag.value.0, len.value.0, len.value.1))
  }

  /** The same, folded for the proofs about whole trees. */
  function HeaderOf(s: seq<byte>, depth: nat): (r: Option<Header>)
    ensures r.Some? ==> r.value.len <= |r.value.rest| < |s| && r.value.rest == s[|s| - |r.value.rest|..]
    decreases depth, |s|
  {
    if depth > 0 then HeaderOf(s, depth - 1) else ParseHeader(s)
  }

  lemma HeaderIs(s: seq<byte>)
    ensures HeaderOf(s, 4) == ParseHeader(s)
  {
    assert HeaderOf(s, 4) == HeaderOf(s, 3) == HeaderOf(s, 2) == HeaderOf(s, 1) == HeaderOf(s, 0);
  }

  /** All tags up to the end; isGroup tells which tags hold tags. */
  function ParseForest(s: seq<byte>, isGroup: nat -> bool): Option<Forest>
    decreases |s|, 0
  {
    if s == [] then Some(Nothing)
    else
      var h := HeaderOf(s, 4);
      if h.None? then None
      else
        var node := ParseBody(h.value.tag, h.value.rest[..h.value.len], isGroup);
        var next := ParseForest(h.value.rest[h.value.len..], isGroup);
        if node.None? || next.None? then None else Some(Attach(node.value, next.value))
  }

  /** One tag, given its content. */
  function ParseBody(tag: nat, body: seq<byte>, isGroup: nat -> bool): Option<Forest>
    decreases |body|, 1
  {
    if !isGroup(tag) then Some(Leaf(tag, 0, body, Nothing))
    else
      var kids := ParseForest(body, isGroup);
      if kids.None? then None else Some(Group(tag, 0, kids.value, Nothing))
  }

  /** A single tag followed by more. */
  function Attach(node: Forest, next: Forest): Forest {
    match node
    case Nothing => next
    case Leaf(tag, room, data, _) => Leaf(tag, room, data, next)
    case Group(tag, room, kids, _) => Group(tag, room, kids, next)
  }

  lemma {:induction false} TailOfMoreTag(acc: nat, s: seq<byte>)
    ensures MoreTag(acc, s).Some? ==> var rest := MoreTag(acc, s).value.1; |rest| < |s| && rest == s[|s| - |rest|..]
    decreases |s|
  {
    if s != [] && s[0] >= 128 {
      TailOfMoreTag((acc * 256 + s[0]) % B32, s[1..]);
    }
  }

  lemma TailOfTag(s: seq<byte>)
    ensures ParseTag(s).Some? ==> var rest := ParseTag(s).value.1; |rest| < |s| && rest == s[|s| - |rest|..]
  {
    if s != [] {
      TailOfMoreTag(s[0], s[1..]);
    }
  }

  lemma TailOfLen(s: seq<byte>)
    ensures ParseLen(s).Some? ==> var rest := ParseLen(s).value.1; |rest| < |s| && rest == s[|s| - |rest|..]
  {
  }

  // ---- writing ----

  /** The length field that tlv_pushl reserves for maxlen, filled by tlv_pop. */
  function LenBytes(room: nat, n: nat): seq<byte> {
    if room < 0x80 then [n % 256]
    else if room < 0x100 then [0x81, n % 256]
    else if room < 0x10000 then [0x82, n / 256 % 256, n % 256]
    else [0x83, n / 65536 % 256, n / 256 % 256, n % 256]
  }

  /** The number of content bytes that the reserved field can express. */
  function Limit(room: nat): nat {
    if room < 0x80 then 0x80 else if room < 0x100 then 0x100 else if room < 0x10000 then 0x10000 else 0x1000000
  }

  /** A tag with its length and content. */
  function Tagged(tag: nat, room: nat, body: seq<byte>): seq<byte> {
    Minimal(tag) + LenBytes(room, |body|) + body
  }

  function Encode(f: Forest): seq<byte> {
    match f
    case Nothing => []
    case Leaf(tag, room, data, next) => Tagged(tag, room, data) + Encode(next)
    case Group(tag, room, kids, next) => Tagged(tag, room, Encode(kids)) + Encode(next)
  }

  /** Tags are well formed, agree with isGroup, and hold no more than their length field can say. */
  ghost predicate Writable(f: Forest, isGroup: nat -> bool) {
    match f
    case Nothing => true
    case Leaf(tag, room, data, next) =>
      WellFormedTag(tag) && !isGroup(tag) && room < 0x1000000 && |data| < Limit(room) && Writable(next, isGroup)
    case Group(tag, room, kids, next) =>
      && WellFormedTag(tag) && isGroup(tag) && room < 0x1000000 && |Encode(kids)| < Limit(room)
      && Writable(kids, isGroup) && Writable(next, isGroup)
  }

  /** The same tree without the reserved rooms. */
  function Plain(f: Forest): Forest {
    match f
    case Nothing => Nothing
    case Leaf(tag, _, data, next) => Leaf(tag, 0, data, Plain(next))
    case Group(tag, _, kids, next) => Group(tag, 0, Plain(kids), Plain(next))
  }

  // ---- round trip ----

  lemma {:induction false} MinimalSpells(v: nat)
    ensures BigEndian(Minimal(v)) == v
  {
    if v > 0 {
      MinimalSpells(v / 256);
      assert Minimal(v)[..|Minimal(v)| - 1] == Minimal(v / 256);
    }
  }

  lemma {:induction false} BigEndianPrefix(a: seq<byte>, b: seq<byte>)
    ensures BigEndian(a) <= BigEndian(a + b)
    decreases |b|
  {
    if b == [] {
      assert a + b == a;
    } else {
      BigEndianPrefix(a, b[..|b| - 1]);
      assert (a + b)[..|a + b| - 1] == a + b[..|b| - 1];
    }
  }

  /** Shifting in the bytes after a prefix spells the whole. */
  lemma {:induction false} MoreTagReads(a: seq<byte>, b: seq<byte>, rest: seq<byte>)
    requires Ending(b) && BigEndian(a + b) < B32
    ensures MoreTag(BigEndian(a), b + rest) == Some((BigEndian(a + b), rest))
    decreases |b|
  {
    var a', b' := a + [b[0]], b[1..];
    assert a + b == a' + b';
    ShiftIn(a, b[0], b');
    assert (b + rest)[1..] == b' + rest;
    if b[0] >= 128 {
      MoreTagReads(a', b', rest);
    } else {
      assert b' == [] && a' == a + b;
    }
  }

  lemma ShiftIn(a: seq<byte>, x: byte, more: seq<byte>)
    requires BigEndian(a + [x] + more) < B32
    ensures (BigEndian(a) * 256 + x) % B32 == BigEndian(a + [x])
  {
    BigEndianPrefix(a + [x], more);
    assert (a + [x])[..|a|] == a;
  }

  lemma TagReads(tag: nat, rest: seq<byte>)
    requires WellFormedTag(tag)
    ensures ParseTag(Minimal(tag) + rest) == Some((tag, rest))
  {
    var b := Minimal(tag);
    MinimalSpells(tag);
    assert BigEndian(b[..1]) == b[0] by { assert b[..1][..0] == []; }
    assert (b + rest)[1..] == b[1..] + rest;
    if b[0] % 32 == 31 {
      assert b[..1] + b[1..] == b;
      MoreTagReads(b[..1], b[1..], rest);
    } else {
      assert b[..1] == b;
    }
  }

  lemma LenReads(room: nat, n: nat, rest: seq<byte>)
    requires room < 0x1000000 && n < Limit(room)
    ensures ParseLen(LenBytes(room, n) + rest) == Some((n, rest))
  {
    var l := LenBytes(room, n);
    if room < 0x80 {
      assert (l + rest)[1..] == rest;
    } else {
      Spells(l[1..]);
      assert l == [0x80 + |l[1..]|] + l[1..];
      LongLenReads(l[1..], rest);
    }
  }

  lemma LongLenReads(digits: seq<byte>, rest: seq<byte>)
    requires 1 <= |digits| <= 4
    ensures ParseLen([0x80 + |digits|] + digits + rest) == Some((BigEndian(digits), rest))
  {
    var s := [0x80 + |digits|] + digits + rest;
    assert s[1..1 + |digits|] == digits && s[1 + |digits|..] == rest;
  }

  function Shifted(high: int, low: int): int {
    256 * high + low
  }

  lemma Spells(d: seq<byte>)
    requires 1 <= |d| <= 3
    ensures |d| == 1 ==> BigEndian(d) == d[0]
    ensures |d| == 2 ==> BigEndian(d) == Shifted(d[0], d[1])
    ensures |d| == 3 ==> BigEndian(d) == Shifted(Shifted(d[0], d[1]), d[2])
  {
    var d1, d2 := d[..|d| - 1], if |d| >= 2 then d[..|d| - 2] else [];
    if |d| >= 2 {
      assert d1[..|d1| - 1] == d2;
      if |d| == 3 {
        assert d2[..0] == [];
      }
    }
  }

  /** A written header is read back. */
  lemma HeaderReads(tag: nat, room: nat, body: seq<byte>, after: seq<byte>)
    requires WellFormedTag(tag) && room < 0x1000000 && |body| < Limit(room)
    ensures HeaderOf(Tagged(tag, room, body) + after, 4) == Some(Header(tag, |body|, body + after))
  {
    var l, rest := LenBytes(room, |body|), body + after;
    assert Tagged(tag, room, body) + after == Minimal(tag) + (l + rest);
    HeaderIs(Tagged(tag, room, body) + after);
    TagReads(tag, l + rest);
    LenReads(room, |body|, rest);
  }

  /** Whatever is writable is read back as the same tree. */
  lemma {:induction false} ForestReads(f: Forest, isGroup: nat -> bool)
    requires Writable(f, isGroup)
    ensures ParseForest(Encode(f), isGroup) == Some(Plain(f))
    decreases f
  {
    match f
    case Nothing =>
    case Leaf(tag, room, data, next) =>
      HeaderReads(tag, room, data, Encode(next));
      var rest := data + Encode(next);
      assert rest[..|data|] == data && rest[|data|..] == Encode(next);
      ForestReads(next, isGroup);
    case Group(tag, room, kids, next) =>
      HeaderReads(tag, room, Encode(kids), Encode(next));
      var rest := Encode(kids) + Encode(next);
      assert rest[..|Encode(kids)|] == Encode(kids) && rest[|Encode(kids)|..] == Encode(next);
      ForestReads(kids, isGroup);
      ForestReads(next, isGroup);
  }
}
