/** The reading half of tlv.c: a position in a buffer and a stack of nested contexts. */
module TlvReader {
  import opened Bits
  import opened Buffers
  import opened TlvFormat

  /** A range of the buffer, linked to the one around it. */
  datatype Context = Root(begin: nat, end: nat) | Inner(begin: nat, end: nat, next: Context)

  /** Every context lies inside the next one, and so inside the root. */
  ghost predicate Nested(c: Context, root: Context) {
    && root.begin <= c.begin <= c.end <= root.end
    && match c
       case Root(_, _) => c == root
       case Inner(begin, end, next) => next.begin <= begin && end <= next.end && Nested(next, root)
  }

  /** The calls a client can make. */
  datatype Call = CallReadTag | CallEnd | CallSkip | CallAbort | CallU8 | CallU16 | CallU8to32
    | CallUpto(n: nat) | CallString | CallAlloc | CallRead(n: nat)

  class Reader {
    const buf: array<byte>
    const root: Context
    var pos: nat
    var now: Context

    /** Contexts stay nested and the position stays inside the innermost. */
    ghost predicate Valid()
      reads this
    {
      Nested(now, root) && root.Root? && root.end <= buf.Length && now.begin <= pos <= now.end
    }

    /** tlv_init. */
    constructor (buf: array<byte>, offset: nat, len: nat)
      requires offset + len <= buf.Length
      ensures Valid() && this.buf == buf && pos == offset && now == root == Root(offset, offset + len)
    {
      this.buf := buf;
      pos := offset;
      root := Root(offset, offset + len);
      now := Root(offset, offset + len);
    }

    /** tlv_rem; the subtraction never goes below zero. */
    function Rem(): (r: nat)
      requires Valid()
      reads this
      ensures pos + r == now.end && r <= RootRem()
    {
      now.end - pos
    }

    function RootRem(): nat
      requires Valid()
      reads this
    {
      root.end - pos
    }

    /** tlv_at_end asks about the root first; inside nested contexts that adds nothing. */
    predicate AtEnd()
      requires Valid()
      reads this
      ensures AtEnd() <==> Rem() == 0
    {
      pos >= root.end || pos >= now.end
    }

    /** What is left of the current context. */
    ghost function Window(): (s: seq<byte>)
      requires Valid()
      reads this, buf
      ensures |s| == Rem()
    {
      buf[pos..now.end]
    }

    /** The next byte, which lies in the root range. */
    method Take() returns (b: byte)
      requires Valid() && !AtEnd()
      modifies this`pos
      ensures Valid() && pos == old(pos) + 1 && b == old(Window())[0] && Window() == old(Window())[1..]
      ensures root.begin <= old(pos) < root.end
    {
      b := buf[pos];
      pos := pos + 1;
    }

    /** The continuation bytes of a tag. */
    method ReadMoreTag(first: byte) returns (tag: Option<nat>)
      requires Valid()
      modifies this`pos
      ensures Valid() && pos >= old(pos)
      ensures tag.None? <==> MoreTag(first, old(Window())).None?
      ensures tag.Some? ==> MoreTag(first, old(Window())) == Some((tag.value, Window()))
    {
      ghost var w := Window();
      var acc: nat := first;
      while true
        invariant Valid() && pos >= old(pos) && MoreTag(first, w) == MoreTag(acc, Window())
        decreases Rem()
      {
        if AtEnd() {
          return None;
        }
        var d := Take();
        acc := (acc * 256 + d) % B32;
        if d < 128 {
          return Some(acc);
        }
      }
    }

    /** The length field. */
    method ReadLen() returns (len: Option<nat>)
      requires Valid()
      modifies this`pos
      ensures Valid() && pos >= old(pos)
      ensures len.None? <==> ParseLen(old(Window())).None?
      ensures len.Some? ==> ParseLen(old(Window())) == Some((len.value, Window()))
    {
      if AtEnd() {
        return None;
      }
      ghost var s := Window();
      var d := Take();
      if d < 128 {
        return Some(d);
      }
      var octs := d - 128;
      if octs < 1 || octs > 4 || Rem() < octs {
        return None;
      }
      ghost var w := Window();
      var n := TakeBigEndian(octs);
      assert w[..octs] == s[1..1 + octs] && w[octs..] == s[1 + octs..];
      len := Some(n);
    }

    method TakeBigEndian(octs: nat) returns (n: nat)
      requires Valid() && octs <= Rem()
      modifies this`pos
      ensures Valid() && pos >= old(pos) && n == BigEndian(old(Window())[..octs]) && Window() == old(Window())[octs..]
    {
      ghost var w := Window();
      n := 0;
      for k := 0 to octs
        invariant Valid() && pos >= old(pos) && n == BigEndian(w[..k]) && Window() == w[k..]
      {
        var d := Take();
        assert w[..k + 1][..k] == w[..k];
        n := n * 256 + d;
      }
    }

    /** tlv_read_tag: on success the new context is the tag's content. */
    method ReadTag() returns (tag: Option<nat>, ghost h: Option<Header>)
      requires Valid()
      modifies this
      ensures Valid() && pos >= old(pos) && h == HeaderOf(old(Window()), 4)
      ensures tag == if h.None? then None else Some(h.value.tag)
      ensures tag.None? ==> now == old(now)
      ensures tag.Some? ==> now.Inner? && now.next == old(now) && now.begin == pos > old(pos)
      ensures tag.Some? ==> Window() == h.value.rest[..h.value.len] && buf[now.end..now.next.end] == h.value.rest[h.value.len..]
    {
      HeaderIs(Window());
      h := HeaderOf(Window(), 4);
      var header := ReadHeader();
      if header.None? {
        return None, h;
      }
      Enter(header.value.1);
      tag := Some(header.value.0);
    }

    /** A context for the next len bytes. */
    method Enter(len: nat)
      requires Valid() && len <= Rem()
      modifies this`now
      ensures Valid() && now == Inner(pos, pos + len, old(now))
      ensures Window() == old(Window())[..len] && buf[now.end..now.next.end] == old(Window())[len..]
    {
      SubSlices(buf[..], pos, pos + len, now.end);
      now := Inner(pos, pos + len, now);
    }

    method ReadHeader() returns (header: Option<(nat, nat)>)
      requires Valid()
      modifies this`pos
      ensures Valid() && pos >= old(pos)
      ensures header.None? <==> ParseHeader(old(Window())).None?
      ensures header.Some? ==> ParseHeader(old(Window())) == Some(Header(header.value.0, header.value.1, Window()))
      ensures header.Some? ==> header.value.1 <= Rem()
    {
      var t := ReadTagBytes();
      if t.None? {
        return None;
      }
      var len := ReadLen();
      if len.None? || RootRem() < len.value || Rem() < len.value {
        return None;
      }
      header := Some((t.value, len.value));
    }

    method ReadTagBytes() returns (tag: Option<nat>)
      requires Valid()
      modifies this`pos
      ensures Valid() && pos >= old(pos)
      ensures tag.None? <==> ParseTag(old(Window())).None?
      ensures tag.Some? ==> ParseTag(old(Window())) == Some((tag.value, Window()))
    {
      if AtEnd() {
        return None;
      }
      var d := Take();
      if d % 32 == 31 {
        tag := ReadMoreTag(d);
      } else {
        tag := Some(d);
      }
    }

    /** tlv_end: the context is left in any case; an error if bytes of it remain. */
    method End() returns (ok: bool)
      requires Valid() && now.Inner?
      modifies this`now
      ensures Valid() && now == old(now).next && ok == (old(Rem()) == 0)
    {
      var tc := now;
      now := tc.next;
      assert pos >= tc.begin;
      ok := pos == tc.end;
    }

    /** tlv_skip. */
    method Skip()
      requires Valid() && now.Inner?
      modifies this
      ensures Valid() && pos >= old(pos) && now == old(now).next && pos == old(now).end
    {
      var tc := now;
      now := tc.next;
      assert tc.begin <= pos <= tc.end;
      pos := tc.end;
    }

    /** tlv_abort: every enclosing context holds the position; nothing is left afterwards. */
    method Abort()
      requires Valid()
      modifies this
      ensures Valid() && pos >= old(pos) && now == root && Rem() == 0
    {
      var tc := now;
      while tc.Inner?
        invariant Nested(tc, root) && tc.begin <= pos <= tc.end
        decreases tc
      {
        tc := tc.next;
        assert tc.begin <= pos <= tc.end;
      }
      now := root;
      pos := root.end;
    }

    /** tlv_read_u8. */
    method ReadU8() returns (r: Option<byte>)
      requires Valid()
      modifies this`pos
      ensures Valid() && pos >= old(pos) && (r.None? <==> old(Rem()) == 0)
      ensures r.Some? ==> old(Window()) == [r.value] + Window()
    {
      if AtEnd() {
        return None;
      }
      var d := Take();
      r := Some(d);
    }

    /** tlv_read_u16. */
    method ReadU16() returns (r: Option<nat>)
      requires Valid()
      modifies this`pos
      ensures Valid() && pos >= old(pos) && (r.None? <==> old(Rem()) < 2)
      ensures r.Some? ==> r.value == BigEndian(old(Window())[..2]) && Window() == old(Window())[2..]
    {
      if Rem() < 2 {
        return None;
      }
      var n := TakeBigEndian(2);
      r := Some(n);
    }

    /** tlv_read_u8to32: all that is left, as a number. */
    method ReadU8to32() returns (r: Option<nat>)
      requires Valid()
      modifies this`pos
      ensures Valid() && pos >= old(pos) && (r.Some? <==> 1 <= old(Rem()) <= 4)
      ensures r.Some? ==> r.value == BigEndian(old(Window())) && Rem() == 0
    {
      if Rem() < 1 || Rem() > 4 {
        return None;
      }
      ghost var w := Window();
      var n := TakeBigEndian(Rem());
      assert w[..|w|] == w;
      r := Some(n);
    }

    /** The bytes copied by tlv_read_upto, tlv_read_alloc and tlv_read. */
    method Copy(n: nat) returns (data: seq<byte>)
      requires Valid() && n <= Rem()
      modifies this`pos
      ensures Valid() && pos >= old(pos) && data == old(Window())[..n] && Window() == old(Window())[n..]
    {
      data := buf[pos..pos + n];
      pos := pos + n;
    }

    method ReadUpto(max: nat) returns (r: Option<seq<byte>>)
      requires Valid()
      modifies this`pos
      ensures Valid() && pos >= old(pos) && (r.None? <==> max == 0 || old(Rem()) == 0)
      ensures r.Some? ==> |r.value| <= max && old(Window()) == r.value + Window() && (|r.value| == max || Rem() == 0)
    {
      var len := if max > Rem() then Rem() else max;
      if len == 0 {
        return None;
      }
      var data := Copy(len);
      r := Some(data);
    }

    method ReadAlloc() returns (data: seq<byte>)
      requires Valid()
      modifies this`pos
      ensures Valid() && pos >= old(pos) && data == old(Window()) && Rem() == 0
    {
      data := Copy(Rem());
    }

    method Read(n: nat) returns (r: Option<seq<byte>>)
      requires Valid()
      modifies this`pos
      ensures Valid() && pos >= old(pos) && (r.None? <==> n != old(Rem()))
      ensures r.Some? ==> r.value == old(Window()) && Rem() == 0
    {
      if Rem() != n {
        return None;
      }
      var data := Copy(n);
      r := Some(data);
    }

    /** tlv_read_string: all that is left, unless a NUL is met, where reading stops. */
    method ReadString() returns (r: Option<seq<byte>>)
      requires Valid()
      modifies this`pos
      ensures Valid() && pos >= old(pos) && (r.None? <==> 0 in old(Window()))
      ensures r.Some? ==> r.value == old(Window()) && Rem() == 0
    {
      ghost var w := Window();
      var len, s := Rem(), [];
      for i := 0 to len
        invariant Valid() && pos >= old(pos) && Window() == w[i..] && s == w[..i] && 0 !in s
      {
        if buf[pos] == 0 {
          assert Window()[0] == w[i] == 0;
          return None;
        }
        var d := Take();
        s := s + [d];
      }
      assert w[..len] == w;
      r := Some(s);
    }

    /** Any sequence of calls, failed ones included, up to one that would leave the root. */
    method Perform(calls: seq<Call>)
      requires Valid()
      modifies this
      ensures Valid() && pos >= old(pos)
    {
      for i := 0 to |calls|
        invariant Valid() && pos >= old(pos)
      {
        match calls[i]
        case CallReadTag => var _, _ := ReadTag();
        case CallEnd => if now.Root? { return; } var _ := End();
        case CallSkip => if now.Root? { return; } Skip();
        case CallAbort => Abort();
        case CallU8 => var _ := ReadU8();
        case CallU16 => var _ := ReadU16();
        case CallU8to32 => var _ := ReadU8to32();
        case CallUpto(n) => var _ := ReadUpto(n);
        case CallString => var _ := ReadString();
        case CallAlloc => var _ := ReadAlloc();
        case CallRead(n) => var _ := Read(n);
      }
    }

    /** Reading all tags of the current context, to any depth. */
    method ReadForest(isGroup: nat -> bool) returns (f: Option<Forest>)
      requires Valid()
      modifies this
      ensures Valid() && f == ParseForest(old(Window()), isGroup)
      ensures f.Some? ==> now == old(now) && Rem() == 0
      decreases Rem(), 0, 1
    {
      if AtEnd() {
        return Some(Nothing);
      }
      ghost var h;
      var node;
      node, h := ReadNode(isGroup);
      if node.None? {
        return None;
      }
      var next := ReadForest(isGroup);
      if next.None? {
        return None;
      }
      f := Some(Attach(node.value, next.value));
    }

    /** One tag with its content. */
    method ReadNode(isGroup: nat -> bool) returns (node: Option<Forest>, ghost h: Option<Header>)
      requires Valid()
      modifies this
      ensures Valid() && h == HeaderOf(old(Window()), 4)
      ensures node == if h.None? then None else ParseBody(h.value.tag, h.value.rest[..h.value.len], isGroup)
      ensures node.Some? ==> now == old(now) && pos > old(pos) && Window() == h.value.rest[h.value.len..]
      decreases Rem(), 0, 0
    {
      var tag;
      tag, h := ReadTag();
      if tag.None? {
        return None, h;
      }
      node := ReadBody(tag.value, isGroup);
      if node.Some? {
        ghost var tc := now;
        var _ := End();
        assert pos == tc.end;
      }
    }

    /** The content of one tag. */
    method ReadBody(tag: nat, isGroup: nat -> bool) returns (node: Option<Forest>)
      requires Valid()
      modifies this
      ensures Valid() && node == ParseBody(tag, old(Window()), isGroup)
      ensures node.Some? ==> now == old(now) && Rem() == 0
      decreases Rem(), 1, 0
    {
      if isGroup(tag) {
        var kids := ReadForest(isGroup);
        node := if kids.None? then None else Some(Group(tag, 0, kids.value, Nothing));
      } else {
        var data := ReadAlloc();
        node := Some(Leaf(tag, 0, data, Nothing));
      }
    }
  }
}
