/** The writing half of tlv.c, and the round trip through the reader. */
module TlvWriter {
  import opened Bits
  import opened Buffers
  import opened TlvFormat
  import TlvReader

  const MAX_APDU_SIZE: nat := 16384

  /** An open tag: where its length field and its content begin. */
  datatype Context = Root | Open(lenptr: nat, begin: nat, next: Context)

  /** The marker that tlv_pushl leaves in the first length byte. */
  function Marker(room: nat): byte {
    if room < 0x80 then 0x00 else if room < 0x100 then 0x81 else if room < 0x10000 then 0x82 else 0x83
  }

  function FieldSize(marker: byte): nat {
    if marker == 0x00 then 1 else if marker == 0x81 then 2 else if marker == 0x82 then 3 else 4
  }

  function Weight(k: nat): nat
    requires k <= 4
  {
    if k == 0 then 1 else if k == 1 then 0x100 else if k == 2 then 0x10000 else if k == 3 then 0x1000000 else B32
  }

  lemma NextByte(v: nat, k: nat)
    requires 1 <= k <= 4
    ensures v / Weight(k - 1) / 256 == v / Weight(k) && v / Weight(k - 1) % 256 == v / Weight(k - 1) - 256 * (v / Weight(k))
  {
  }

  lemma {:induction false} MinimalGrows(a: nat, b: nat)
    requires a <= b
    ensures |Minimal(a)| <= |Minimal(b)|
  {
    if a > 0 {
      MinimalGrows(a / 256, b / 256);
    }
  }

  /** The number of bytes from the first that is not zero. */
  method LeadingByte(val: u32) returns (k: nat)
    ensures k <= 4 && val / Weight(k) == 0 && (k > 0 ==> val / Weight(k - 1) % 256 != 0)
  {
    k := 4;
    while k > 0 && val / Weight(k - 1) % 256 == 0
      invariant k <= 4 && val / Weight(k) == 0
    {
      NextByte(val, k);
      k := k - 1;
    }
  }

  class Writer {
    const buf: array<byte>
    var pos: nat
    var now: Context

    ghost predicate Valid()
      reads this
    {
      pos <= buf.Length
    }

    /** tlv_init_write. */
    constructor ()
      ensures Valid() && fresh(buf) && buf.Length == MAX_APDU_SIZE && pos == 0 && now == Root
    {
      buf := new byte[MAX_APDU_SIZE];
      pos, now := 0, Root;
    }

    ghost function Written(): seq<byte>
      requires Valid()
      reads this, buf
    {
      buf[..pos]
    }

    /** tlv_write_byte. */
    method WriteByte(b: byte)
      requires Valid() && pos < buf.Length
      modifies this`pos, buf
      ensures Valid() && Written() == old(Written()) + [b]
    {
      buf[pos] := b;
      pos := pos + 1;
    }

    /** tlv_write. */
    method Write(src: seq<byte>)
      requires Valid() && pos + |src| <= buf.Length
      modifies this`pos, buf
      ensures Valid() && Written() == old(Written()) + src
    {
      for i := 0 to |src|
        invariant Valid() && pos == old(pos) + i && Written() == old(Written()) + src[..i]
      {
        WriteByte(src[i]);
      }
      assert src[..|src|] == src;
    }

    /** tlv_write_u8to32: leading zero bytes are skipped, the rest written from the top. */
    method WriteU8to32(val: u32)
      requires Valid() && pos + |Minimal(val)| <= buf.Length
      modifies this`pos, buf
      ensures Valid() && Written() == old(Written()) + Minimal(val)
    {
      var k := LeadingByte(val);
      while k > 0
        invariant 0 <= k <= 4 && Valid() && Written() == old(Written()) + Minimal(val / Weight(k))
        invariant val / Weight(k) == 0 ==> k == 0 || val / Weight(k - 1) % 256 != 0
        decreases k
      {
        NextByte(val, k);
        MinimalGrows(val / Weight(k - 1), val);
        WriteByte(val / Weight(k - 1) % 256);
        k := k - 1;
      }
    }

    /** tlv_pushl: the tag, and a length field of the size that maxlen calls for. */
    method PushL(tag: u32, maxlen: nat)
      requires Valid() && maxlen < 0x1000000
      requires pos + |Minimal(tag)| + FieldSize(Marker(maxlen)) <= buf.Length
      modifies this, buf
      ensures Valid() && pos == old(pos) + |Minimal(tag)| + FieldSize(Marker(maxlen))
      ensures now == Open(old(pos) + |Minimal(tag)|, pos, old(now))
      ensures buf[..now.lenptr] == old(Written()) + Minimal(tag) && buf[now.lenptr] == Marker(maxlen)
    {
      WriteU8to32(tag);
      var lenptr := pos;
      WriteByte(Marker(maxlen));
      pos := pos + FieldSize(Marker(maxlen)) - 1;
      now := Open(lenptr, pos, now);
    }

    /** tlv_pop: the length is filled in, in the form its marker announces. */
    method Pop(ghost room: nat)
      requires Valid() && now.Open? && now.lenptr + FieldSize(Marker(room)) == now.begin <= pos
      requires buf[now.lenptr] == Marker(room) && pos - now.begin < Limit(room)
      modifies this`now, buf
      ensures now == old(now).next
      ensures Written() == old(buf[..now.lenptr]) + LenBytes(room, pos - old(now).begin) + old(buf[now.begin..pos])
    {
      var tc := now;
      now := tc.next;
      Fill(tc.lenptr, pos - tc.begin, room);
      assert buf[tc.begin..pos] == old(buf[now.begin..pos]);
      ThreeSlices(buf[..], tc.lenptr, tc.begin, pos);
    }

    method Fill(at: nat, len: nat, ghost room: nat)
      requires at + FieldSize(Marker(room)) <= buf.Length && buf[at] == Marker(room) && len < Limit(room)
      modifies buf
      ensures buf[..at] == old(buf[..at]) && buf[at..at + FieldSize(Marker(room))] == LenBytes(room, len)
      ensures forall k :: at + FieldSize(Marker(room)) <= k < buf.Length ==> buf[k] == old(buf[k])
    {
      var marker := buf[at];
      if marker == 0x00 {
        buf[at] := len;
      } else if marker == 0x81 {
        buf[at + 1] := len;
      } else if marker == 0x82 {
        buf[at + 1] := len / 256 % 256;
        buf[at + 2] := len % 256;
      } else {
        buf[at + 1] := len / 65536 % 256;
        buf[at + 2] := len / 256 % 256;
        buf[at + 3] := len % 256;
      }
    }

    /** Closing a tag whose content is body: nothing before it has changed. */
    method Close(ghost room: nat, ghost prefix: seq<byte>, ghost head: seq<byte>, ghost body: seq<byte>)
      requires Valid() && now.Open? && Written() == head + body && now.begin == |head|
      requires |head| == |prefix| + FieldSize(Marker(room)) && now.lenptr == |prefix|
      requires head[..|prefix|] == prefix && head[|prefix|] == Marker(room) && |body| < Limit(room)
      modifies this`now, buf
      ensures now == old(now).next && Written() == prefix + LenBytes(room, |body|) + body
    {
      assert buf[now.begin..pos] == (head + body)[|head|..] == body;
      assert buf[..now.lenptr] == (head + body)[..|prefix|] == prefix;
      assert buf[now.lenptr] == (head + body)[|prefix|];
      Pop(room);
    }

    /** Any tree, with push, write and pop. */
    method WriteForest(f: Forest, ghost isGroup: nat -> bool)
      requires Valid() && Writable(f, isGroup) && pos + |Encode(f)| <= buf.Length
      modifies this, buf
      ensures Valid() && Written() == old(Written()) + Encode(f) && now == old(now)
      decreases f, 1
    {
      if f.Nothing? {
        return;
      }
      ghost var first := Tagged(f.tag, f.room, Body(f));
      assert Encode(f) == first + Encode(f.next);
      WriteNode(f, isGroup);
      WriteForest(f.next, isGroup);
      AppendAssoc(old(Written()), first, Encode(f.next));
    }

    /** The first tag of a row. */
    method WriteNode(f: Forest, ghost isGroup: nat -> bool)
      requires !f.Nothing? && Valid() && Writable(f, isGroup)
      requires pos + |Tagged(f.tag, f.room, Body(f))| <= buf.Length
      modifies this, buf
      ensures Valid() && now == old(now)
      ensures Written() == old(Written()) + Tagged(f.tag, f.room, Body(f))
      decreases f, 0
    {
      ghost var prefix := Written() + Minimal(f.tag);
      PushL(f.tag, f.room);
      ghost var head := Written();
      assert head[..|prefix|] == prefix;
      match f {
        case Leaf(_, _, data, _) => Write(data);
        case Group(_, _, kids, _) => WriteForest(kids, isGroup);
      }
      Close(f.room, prefix, head, Body(f));
      AppendAssoc(old(Written()), Minimal(f.tag), LenBytes(f.room, |Body(f)|) + Body(f));
      AppendAssoc(Minimal(f.tag), LenBytes(f.room, |Body(f)|), Body(f));
      AppendAssoc(prefix, LenBytes(f.room, |Body(f)|), Body(f));
    }
  }

  function Body(f: Forest): seq<byte> {
    match f
    case Nothing => []
    case Leaf(_, _, data, _) => data
    case Group(_, _, kids, _) => Encode(kids)
  }

  /** Writing a tree and reading it back: the same tree, with no bytes left over. */
  method RoundTrip(f: Forest, isGroup: nat -> bool) returns (r: Option<Forest>)
    requires Writable(f, isGroup) && |Encode(f)| <= MAX_APDU_SIZE
    ensures r == Some(Plain(f))
  {
    var w := new Writer();
    w.WriteForest(f, isGroup);
    var reader := new TlvReader.Reader(w.buf, 0, w.pos);
    assert reader.Window() == Encode(f);
    ForestReads(f, isGroup);
    r := reader.ReadForest(isGroup);
  }
}
