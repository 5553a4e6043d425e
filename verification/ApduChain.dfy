/** Command and response chaining (piv.c): payloads of any length in commands of at most 255 bytes,
    and replies of any length in segments. */
module ApduChain {
  import opened Bits
  import opened Buffers

  const CLA_ISO: byte := 0x00
  const INS_CONTINUE: byte := 0xC0
  /** A status word as its two bytes; `sw & 0xFF00` looks at the first alone. */
  datatype Status = Status(sw1: byte, sw2: byte)

  const SW_NO_ERROR: Status := Status(0x90, 0x00)
  const SW_WRONG_DATA: Status := Status(0x6A, 0x80)

  datatype Reply = Reply(data: seq<byte>, sw: Status)

  /** One transmission: what was sent, and what came back if anything did. */
  datatype Exchange = Exchange(frame: seq<byte>, reply: Option<Reply>)

  datatype Header = Header(cls: byte, ins: byte, p1: byte, p2: byte)

  predicate Chained(cls: byte) {
    cls / 16 % 2 == 1
  }

  /** `cls | CLA_CHAIN` and `cls & ~CLA_CHAIN`. */
  function WithChain(cls: byte, on: bool): (r: byte)
    ensures Chained(r) == on && r % 16 == cls % 16 && r / 32 == cls / 32
  {
    if Chained(cls) == on then cls else if on then cls + 16 else cls - 16
  }

  predicate WrongLe(sw: Status) {
    sw.sw1 == 0x6C
  }

  predicate BytesRemaining(sw: Status) {
    sw.sw1 == 0x61
  }

  predicate Accepted(sw: Status) {
    sw.sw1 == 0x90 || sw.sw1 == 0x61 || sw.sw1 == 0x62 || sw.sw1 == 0x63
  }

  /** More is to be fetched: the card says so, or it stopped at full length without saying. */
  predicate MoreExpected(sw: Status, len: nat) {
    BytesRemaining(sw) || (sw == SW_NO_ERROR && len >= 0xFF)
  }

  /** apdu_to_buffer. */
  function ToBuffer(h: Header, data: Option<seq<byte>>, le: byte): seq<byte>
    requires data.Some? ==> 0 < |data.value| < 256
  {
    var head := [h.cls, h.ins, h.p1, h.p2];
    if data.None? then head + [le]
    else head + [|data.value|] + data.value + if Chained(h.cls) then [] else [le]
  }

  /** What the card makes of it. */
  lemma BufferParts(h: Header, data: Option<seq<byte>>, le: byte)
    requires data.Some? ==> 0 < |data.value| < 256
    ensures var r := ToBuffer(h, data, le);
      && |r| >= 5 && r[..4] == [h.cls, h.ins, h.p1, h.p2] && DataOf(r) == (if data.Some? then data.value else [])
      && (!(data.Some? && Chained(h.cls)) ==> r[|r| - 1] == le)
  {
    if data.Some? {
      var r := ToBuffer(h, data, le);
      assert r[5..5 + |data.value|] == data.value;
    }
  }

  /** The data field of a command as a card reads it. */
  function DataOf(frame: seq<byte>): seq<byte> {
    if |frame| <= 5 then []
    else
      var lc: nat := frame[4];
      if |frame| < 5 + lc then [] else frame[5..5 + lc]
  }

  // ---- what a conversation looks like ----

  /** The part of the payload that is next, from position p. */
  function Chunk(payload: seq<byte>, p: nat): seq<byte>
    requires p <= |payload|
  {
    payload[p..if |payload| - p > 0xFF then p + 0xFF else |payload|]
  }

  ghost predicate AcceptedExchange(e: Exchange) {
    e.reply.Some? && Accepted(e.reply.value.sw)
  }

  /** How much of the payload the card has accepted. */
  ghost function Progress(s: seq<Exchange>, payload: seq<byte>): (p: nat)
    ensures p <= |payload|
  {
    if s == [] then 0
    else
      var p := Progress(s[..|s| - 1], payload);
      if AcceptedExchange(s[|s| - 1]) then p + |Chunk(payload, p)| else p
  }

  /** The length asked for: as given, or as the card last corrected it. */
  ghost function LeAfter(s: seq<Exchange>, le: byte): byte {
    if s == [] then le
    else
      var e := s[|s| - 1];
      if e.reply.Some? && WrongLe(e.reply.value.sw) then e.reply.value.sw.sw2 else LeAfter(s[..|s| - 1], le)
  }

  /** The command for the payload from position p. */
  ghost function CommandAt(h: Header, payload: Option<seq<byte>>, p: nat, le: byte): seq<byte>
    requires p <= |Bytes(payload)|
  {
    var chunk := Chunk(Bytes(payload), p);
    ToBuffer(h.(cls := WithChain(h.cls, |Bytes(payload)| - p > 0xFF)), if chunk == [] then None else Some(chunk), le)
  }

  /** The same; the recursion on depth only keeps the definition folded where nothing but its name
      matters. */
  ghost function Planned(h: Header, payload: Option<seq<byte>>, p: nat, le: byte, depth: nat): seq<byte>
    decreases depth, p
  {
    if depth > 0 then Planned(h, payload, p, le, depth - 1)
    else if p <= |Bytes(payload)| then CommandAt(h, payload, p, le)
    else []
  }

  lemma Unfold(h: Header, payload: Option<seq<byte>>, p: nat, le: byte)
    ensures Planned(h, payload, p, le, 5) == Planned(h, payload, p, le, 0)
  {
    assert Planned(h, payload, p, le, 5) == Planned(h, payload, p, le, 4) == Planned(h, payload, p, le, 3);
    assert Planned(h, payload, p, le, 3) == Planned(h, payload, p, le, 2) == Planned(h, payload, p, le, 1);
    assert Planned(h, payload, p, le, 1) == Planned(h, payload, p, le, 0);
  }

  lemma PlannedIs(h: Header, payload: Option<seq<byte>>, p: nat, le: byte)
    requires p <= |Bytes(payload)|
    ensures Planned(h, payload, p, le, 5) == CommandAt(h, payload, p, le)
    ensures var frame := CommandAt(h, payload, p, le);
      |frame| >= 5 && DataOf(frame) == Chunk(Bytes(payload), p) && (Chained(frame[0]) <==> |Bytes(payload)| - p > 0xFF)
  {
    var chunk, cls := Chunk(Bytes(payload), p), WithChain(h.cls, |Bytes(payload)| - p > 0xFF);
    BufferParts(h.(cls := cls), if chunk == [] then None else Some(chunk), le);
    assert CommandAt(h, payload, p, le)[..4][0] == cls;
    Unfold(h, payload, p, le);
  }

  function Bytes(payload: Option<seq<byte>>): seq<byte> {
    if payload.Some? then payload.value else []
  }

  /** Every transmission carries what comes after the bytes accepted so far. */
  ghost predicate Sent(s: seq<Exchange>, h: Header, payload: Option<seq<byte>>, le: byte) {
    s != [] ==>
      var t := s[..|s| - 1];
      Sent(t, h, payload, le) && s[|s| - 1].frame == Planned(h, payload, Progress(t, Bytes(payload)), LeAfter(t, le), 5)
  }

  lemma SentMore(s: seq<Exchange>, e: Exchange, h: Header, payload: Option<seq<byte>>, le: byte) returns (t: seq<Exchange>)
    requires Sent(s, h, payload, le)
    requires e.frame == Planned(h, payload, Progress(s, Bytes(payload)), LeAfter(s, le), 5)
    ensures t == s + [e] && t[|s|] == e && Sent(t, h, payload, le)
    ensures e.reply.Some? && Accepted(e.reply.value.sw) ==>
      Progress(t, Bytes(payload)) == Progress(s, Bytes(payload)) + |Chunk(Bytes(payload), Progress(s, Bytes(payload)))|
    ensures !(e.reply.Some? && Accepted(e.reply.value.sw)) ==> Progress(t, Bytes(payload)) == Progress(s, Bytes(payload))
    ensures LeAfter(t, le) == (if e.reply.Some? && WrongLe(e.reply.value.sw) then e.reply.value.sw.sw2 else LeAfter(s, le))
  {
    t := s + [e];
    assert t[..|t| - 1] == s;
  }

  /** Equal but for the chain bit. */
  ghost predicate SameCommand(h: Header, h0: Header) {
    h == h0.(cls := WithChain(h0.cls, true)) || h == h0.(cls := WithChain(h0.cls, false))
  }

  lemma ChainTwice(cls: byte, x: bool, y: bool)
    ensures WithChain(WithChain(cls, x), y) == WithChain(cls, y)
  {
  }

  /** The data fields of the accepted commands, in order. */
  ghost function AcceptedData(s: seq<Exchange>): seq<byte> {
    if s == [] then []
    else
      AcceptedData(s[..|s| - 1]) + if AcceptedExchange(s[|s| - 1]) then DataOf(s[|s| - 1].frame) else []
  }

  lemma {:induction false} SentFrames(s: seq<Exchange>, h: Header, payload: Option<seq<byte>>, le: byte, i: nat)
    requires Sent(s, h, payload, le) && i < |s|
    ensures s[i].frame == CommandAt(h, payload, Progress(s[..i], Bytes(payload)), LeAfter(s[..i], le))
  {
    if i < |s| - 1 {
      var t := s[..|s| - 1];
      assert t[..i] == s[..i];
      SentFrames(t, h, payload, le, i);
    } else {
      PlannedIs(h, payload, Progress(s[..i], Bytes(payload)), LeAfter(s[..i], le));
    }
  }

  /** The accepted data fields concatenate to the part of the payload accepted so far. */
  lemma {:induction false} SentConcatenates(s: seq<Exchange>, h: Header, payload: Option<seq<byte>>, le: byte)
    requires Sent(s, h, payload, le)
    ensures AcceptedData(s) == Bytes(payload)[..Progress(s, Bytes(payload))]
  {
    if s != [] {
      var t, b := s[..|s| - 1], Bytes(payload);
      SentConcatenates(t, h, payload, le);
      var p := Progress(t, b);
      PlannedIs(h, payload, p, LeAfter(t, le));
      assert DataOf(s[|s| - 1].frame) == Chunk(b, p);
      NextChunk(b, p);
    }
  }

  lemma ChunkIs(b: seq<byte>, p: nat, n: nat)
    requires p + n <= |b| && n == if |b| - p > 0xFF then 0xFF else |b| - p
    ensures Chunk(b, p) == b[p..p + n] && |Chunk(b, p)| == n
  {
  }

  lemma NextChunk(b: seq<byte>, p: nat)
    requires p <= |b|
    ensures b[..p] + Chunk(b, p) == b[..p + |Chunk(b, p)|]
  {
  }

  /** No data field exceeds 255 bytes, and the chain bit is set exactly when more will follow. */
  lemma SentChains(s: seq<Exchange>, h: Header, payload: Option<seq<byte>>, le: byte, i: nat)
    requires Sent(s, h, payload, le) && i < |s|
    ensures |s[i].frame| >= 5 && |DataOf(s[i].frame)| <= 0xFF
    ensures Chained(s[i].frame[0]) <==> Progress(s[..i], Bytes(payload)) + |DataOf(s[i].frame)| < |Bytes(payload)|
  {
    SentFrames(s, h, payload, le, i);
    PlannedIs(h, payload, Progress(s[..i], Bytes(payload)), LeAfter(s[..i], le));
  }

  /** The bytes of all replies, in order. */
  ghost function Segments(t: seq<Exchange>): seq<byte> {
    if t == [] then []
    else
      var e := t[|t| - 1];
      Segments(t[..|t| - 1]) + if e.reply.Some? then e.reply.value.data else []
  }

  /** Every CONTINUE answers a reply that left something to fetch. */
  ghost predicate Continued(first: Reply, t: seq<Exchange>) {
    t != [] ==>
      var u := t[..|t| - 1];
      var before := ReplyAt(first, t, |t| - 1);
      && Continued(first, u) && (u != [] ==> u[|u| - 1].reply.Some?)
      && MoreExpected(before.sw, |before.data|) && IsContinue(t[|t| - 1].frame, before.sw)
  }

  ghost predicate IsContinue(frame: seq<byte>, before: Status) {
    |frame| == 5 && frame[..4] == [CLA_ISO, INS_CONTINUE, 0, 0] && (BytesRemaining(before) ==> frame[4] == before.sw2)
  }

  lemma ContinuedMore(first: Reply, t: seq<Exchange>, e: Exchange) returns (u: seq<Exchange>)
    requires Continued(first, t) && (t != [] ==> t[|t| - 1].reply.Some?)
    requires var before := ReplyAt(first, t, |t|); MoreExpected(before.sw, |before.data|) && IsContinue(e.frame, before.sw)
    ensures u == t + [e] && u[|t|] == e && Continued(first, u)
    ensures e.reply.Some? ==> ReplyAt(first, u, |u|) == e.reply.value && Segments(u) == Segments(t) + e.reply.value.data
    ensures GotOk(first, u) <==> GotOk(first, t) || ReplyAt(first, t, |t|).sw == SW_NO_ERROR
  {
    u := t + [e];
    assert u[..|u| - 1] == t;
    assert ReplyAt(first, u, |t|) == ReplyAt(first, t, |t|);
  }

  lemma JoinSegments(before: seq<byte>, offset: nat, a: seq<byte>, b: seq<byte>, segment: seq<byte>, whole: seq<byte>)
    requires offset <= |before| && before[offset..] == a + b && whole == before + segment
    ensures whole[offset..] == a + (b + segment)
  {
    AppendAssoc(a, b, segment);
    assert whole[offset..] == before[offset..] + segment;
  }

  /** The replies but the last: one of them was a success that might not have been complete. */
  ghost predicate GotOk(first: Reply, t: seq<Exchange>) {
    t != [] && (GotOk(first, t[..|t| - 1]) || ReplyAt(first, t, |t| - 1).sw == SW_NO_ERROR)
  }

  /** The reply that the i-th CONTINUE follows. */
  ghost function ReplyAt(first: Reply, t: seq<Exchange>, i: nat): Reply
    requires i <= |t|
  {
    if i > 0 && t[i - 1].reply.Some? then t[i - 1].reply.value else first
  }

  /** The status reported in the end: a refused CONTINUE after a success is forgiven. */
  ghost function FinalStatus(first: Reply, t: seq<Exchange>): Status {
    var sw := ReplyAt(first, t, |t|).sw;
    if GotOk(first, t) && sw == SW_WRONG_DATA then SW_NO_ERROR else sw
  }

  // ---- the code ----

  /** The card at the other end: a finite script of answers, and a record of the conversation. */
  class Card {
    const script: seq<Option<Reply>>
    var at: nat
    ghost var log: seq<Exchange>

    ghost predicate Valid()
      reads this
    {
      at <= |script|
    }

    constructor (script: seq<Option<Reply>>)
      ensures Valid() && this.script == script && at == 0 && log == []
    {
      this.script, at, log := script, 0, [];
    }

    /** SCardTransmit; an answer that does not fit the buffer is an error, as is the end of the script. */
    method Transmit(frame: seq<byte>, room: nat) returns (r: Option<Reply>)
      requires Valid()
      modifies this
      ensures Valid() && log == old(log) + [Exchange(frame, r)]
      ensures r.Some? ==> |r.value.data| + 2 <= room && at > old(at)
    {
      r := None;
      if at < |script| {
        r := script[at];
        at := at + 1;
        if r.Some? && |r.value.data| + 2 > room {
          r := None;
        }
      }
      log := log + [Exchange(frame, r)];
    }
  }

  datatype Step = Failed | Again | Next | Refused

  class Apdu {
    var h: Header
    var le: byte
    var data: Option<seq<byte>>
    var cmdOffset: nat
    var cmdLen: nat
    var sw: Status
    const reply: array<byte>
    var replyOffset: nat
    var replyLen: nat

    /** piv_apdu_make and piv_apdu_set_cmd, with a reply buffer of the given size. */
    constructor (h: Header, le: byte, data: Option<seq<byte>>, size: nat)
      ensures this.h == h && this.le == le && this.data == data && cmdOffset == 0 && cmdLen == |Bytes(data)|
      ensures fresh(reply) && reply.Length == size && replyOffset == 0 && replyLen == 0
    {
      this.h, this.le, this.data := h, le, data;
      cmdOffset, cmdLen, sw := 0, |Bytes(data)|, SW_NO_ERROR;
      reply := new byte[size];
      replyOffset, replyLen := 0, 0;
    }

    /** The data field about to be sent. */
    function Field(): Option<seq<byte>>
      requires data.Some? ==> cmdOffset + cmdLen <= |data.value|
      reads this
    {
      if data.Some? then Some(data.value[cmdOffset..cmdOffset + cmdLen]) else None
    }

    /** The bytes about to be sent. */
    function Frame(): seq<byte>
      requires data.Some? ==> cmdOffset + cmdLen <= |data.value| && 0 < cmdLen < 256
      reads this
    {
      ToBuffer(h, Field(), le)
    }

    /** piv_apdu_transceive: one exchange; the reply lands at the reply offset. */
    method Transceive(card: Card, ghost frame: seq<byte>) returns (ok: bool, ghost r: Option<Reply>)
      requires card.Valid() && replyOffset <= reply.Length
      requires data.Some? ==> cmdOffset + cmdLen <= |data.value| && 0 < cmdLen < 256
      requires frame == Frame()
      modifies this`sw, this`replyLen, reply, card
      ensures card.Valid() && ok == r.Some? && card.log == old(card.log) + [Exchange(frame, r)]
      ensures ok ==> card.at > old(card.at) && sw == r.value.sw && Holds(r.value.data)
      ensures reply[..replyOffset] == old(reply[..replyOffset])
    {
      var got := card.Transmit(Frame(), reply.Length - replyOffset);
      r := got;
      ok := got.Some?;
      if ok {
        Accept(got.value);
      }
    }

    /** A reply taken apart into data and status. */
    method Accept(r: Reply)
      requires replyOffset + |r.data| + 2 <= reply.Length
      modifies this`sw, this`replyLen, reply
      ensures sw == r.sw && Holds(r.data) && reply[..replyOffset] == old(reply[..replyOffset])
    {
      Store(r.data, r.sw.sw1, r.sw.sw2);
      replyLen := |r.data|;
      sw := Status(reply[replyOffset + replyLen], reply[replyOffset + replyLen + 1]);
    }

    /** The reply buffer holds s at the reply offset, with room for a status after it. */
    ghost predicate Holds(s: seq<byte>)
      reads this, reply
    {
      replyLen == |s| && replyOffset + |s| + 2 <= reply.Length && reply[replyOffset..replyOffset + |s|] == s
    }

    /** The received bytes, data and status, in the reply buffer. */
    method Store(s: seq<byte>, high: byte, low: byte)
      requires replyOffset + |s| + 2 <= reply.Length
      modifies reply
      ensures reply[..replyOffset] == old(reply[..replyOffset]) && reply[replyOffset..replyOffset + |s|] == s
      ensures reply[replyOffset + |s|] == high && reply[replyOffset + |s| + 1] == low
    {
      for i := 0 to |s|
        invariant reply[..replyOffset] == old(reply[..replyOffset]) && reply[replyOffset..replyOffset + i] == s[..i]
      {
        reply[replyOffset + i] := s[i];
      }
      reply[replyOffset + |s|] := high;
      reply[replyOffset + |s| + 1] := low;
    }

    /** Between two commands of a chain: s was sent, rem bytes of the payload are to go. */
    ghost predicate Sending(s: seq<Exchange>, h0: Header, le0: byte, rem: nat)
      reads this
    {
      && replyOffset <= reply.Length && Sent(s, h0, data, le0) && SameCommand(h, h0)
      && le == LeAfter(s, le0) && cmdOffset == Progress(s, Bytes(data)) && cmdOffset + rem == |Bytes(data)|
    }

    /** The next command of a chain and what its status asks for. */
    method SendOne(card: Card, rem: nat, ghost s: seq<Exchange>, ghost h0: Header, ghost le0: byte)
      returns (step: Step, left: nat, ghost r: Option<Reply>, ghost t: seq<Exchange>)
      requires card.Valid() && Sending(s, h0, le0, rem) && (data.Some? ==> rem > 0)
      modifies this`h, this`le, this`cmdOffset, this`cmdLen, this`sw, this`replyLen, reply, card
      ensures card.Valid() && Sending(t, h0, le0, left) && t == s + [Exchange(Planned(h0, data, old(cmdOffset), old(le), 5), r)]
      ensures card.log == old(card.log) + [t[|s|]]
      ensures step.Failed? <==> r.None?
      ensures r.Some? ==> card.at > old(card.at) && sw == r.value.sw && Holds(r.value.data)
      ensures step.Again? <==> r.Some? && WrongLe(sw)
      ensures step.Next? <==> r.Some? && Accepted(sw)
      ensures !step.Next? ==> left == rem
    {
      ghost var frame := Planned(h0, data, cmdOffset, le, 5);
      var ok;
      ok, r := Offer(card, rem, h0, frame);
      t := SentMore(s, Exchange(frame, r), h0, data, le0);
      step, left := Judge(ok, rem);
    }

    /** The exchange itself. */
    method Offer(card: Card, rem: nat, ghost h0: Header, ghost frame: seq<byte>) returns (ok: bool, ghost r: Option<Reply>)
      requires card.Valid() && replyOffset <= reply.Length
      requires cmdOffset + rem == |Bytes(data)| && (data.Some? ==> rem > 0) && SameCommand(h, h0)
      requires frame == Planned(h0, data, cmdOffset, le, 5)
      modifies this`h, this`cmdLen, this`sw, this`replyLen, reply, card
      ensures card.Valid() && ok == r.Some? && card.log == old(card.log) + [Exchange(frame, r)]
      ensures ok ==> card.at > old(card.at) && sw == r.value.sw && Holds(r.value.data)
      ensures SameCommand(h, h0) && cmdLen == |Chunk(Bytes(data), cmdOffset)| <= rem
    {
      Prepare(rem, h0, frame);
      ok, r := Transceive(card, frame);
    }

    /** What the status of a command asks for. */
    method Judge(ok: bool, rem: nat) returns (step: Step, left: nat)
      requires cmdLen <= rem
      modifies this`le, this`cmdOffset
      ensures step == if !ok then Failed else if WrongLe(sw) then Again else if Accepted(sw) then Next else Refused
      ensures le == if step == Again then sw.sw2 else old(le)
      ensures cmdOffset == old(cmdOffset) + (if step == Next then cmdLen else 0)
      ensures left == rem - (if step == Next then cmdLen else 0)
    {
      left := rem;
      if !ok {
        step := Failed;
      } else if WrongLe(sw) {
        le := sw.sw2;
        step := Again;
      } else if Accepted(sw) {
        cmdOffset := cmdOffset + cmdLen;
        left := rem - cmdLen;
        step := Next;
      } else {
        step := Refused;
      }
    }

    /** The class byte and the length of the next command. */
    method Prepare(rem: nat, ghost h0: Header, ghost frame: seq<byte>)
      requires cmdOffset + rem == |Bytes(data)| && (data.Some? ==> rem > 0) && SameCommand(h, h0)
      requires frame == Planned(h0, data, cmdOffset, le, 5)
      modifies this`h, this`cmdLen
      ensures SameCommand(h, h0) && cmdLen == |Chunk(Bytes(data), cmdOffset)| <= rem
      ensures data.Some? ==> cmdOffset + cmdLen <= |data.value| && 0 < cmdLen < 256
      ensures frame == Frame()
    {
      ChainTwice(h0.cls, true, rem > 0xFF);
      ChainTwice(h0.cls, false, rem > 0xFF);
      h := h.(cls := WithChain(h.cls, rem > 0xFF));
      cmdLen := if rem > 0xFF then 0xFF else rem;
      PlannedIs(h0, data, cmdOffset, le);
      ChunkIs(Bytes(data), cmdOffset, cmdLen);
    }

    /** The sending half of piv_apdu_transceive_chain.  s records it; done means that the card took
        the whole payload. */
    method Send(card: Card) returns (ok: bool, done: bool, ghost s: seq<Exchange>)
      requires card.Valid() && replyOffset <= reply.Length
      requires cmdOffset == 0 && cmdLen == |Bytes(data)| && (data.Some? ==> cmdLen > 0)
      modifies this, reply, card
      ensures card.Valid() && card.log == old(card.log) + s && s != [] && Sent(s, old(h), data, old(le))
      ensures data == old(data) && replyOffset == old(replyOffset)
      ensures var r := s[|s| - 1].reply; ok == r.Some? && (ok ==> sw == r.value.sw && Holds(r.value.data))
      ensures done ==> ok && Accepted(sw) && Progress(s, Bytes(data)) == |Bytes(data)|
      ensures ok && !done ==> !Accepted(sw) && !WrongLe(sw)
    {
      var rem := cmdLen;
      s := [];
      while true
        invariant card.Valid() && card.log == old(card.log) + s && Sending(s, old(h), old(le), rem)
        invariant data == old(data) && replyOffset == old(replyOffset) && (data.Some? ==> rem > 0)
        decreases |card.script| - card.at
      {
        var step;
        ghost var r;
        step, rem, r, s := SendOne(card, rem, s, old(h), old(le));
        if step == Failed {
          return false, false, s;
        } else if step == Refused {
          return true, false, s;
        } else if step == Next && rem == 0 {
          return true, true, s;
        }
      }
    }

    /** Between two CONTINUEs: everything received so far lies from offset on, the last segment at
        the reply offset. */
    ghost predicate Receiving(first: Reply, t: seq<Exchange>, offset: nat)
      reads this, reply
    {
      && Continued(first, t) && (t != [] ==> t[|t| - 1].reply.Some?)
      && var last := ReplyAt(first, t, |t|);
      && sw == last.sw && Holds(last.data) && offset <= replyOffset
      && reply[offset..replyOffset + replyLen] == first.data + Segments(t)
    }

    /** One CONTINUE. */
    method Continue(card: Card, ghost first: Reply, ghost t: seq<Exchange>, ghost offset: nat) returns (ok: bool, ghost u: seq<Exchange>)
      requires card.Valid() && Receiving(first, t, offset) && MoreExpected(sw, replyLen)
      modifies this, reply, card
      ensures card.Valid() && |u| == |t| + 1 && u == t + [u[|t|]] && card.log == old(card.log) + [u[|t|]]
      ensures Continued(first, u) && ok == u[|t|].reply.Some?
      ensures GotOk(first, u) <==> GotOk(first, t) || old(sw) == SW_NO_ERROR
      ensures ok ==> Receiving(first, u, offset) && card.at > old(card.at)
    {
      ghost var sofar := reply[..replyOffset + replyLen];
      assert sofar[offset..] == reply[offset..replyOffset + replyLen];
      ghost var frame, r;
      ok, frame, r := Fetch(card);
      u := ContinuedMore(first, t, Exchange(frame, r));
      if ok {
        ghost var whole := reply[..replyOffset + replyLen];
        assert whole == sofar + r.value.data;
        JoinSegments(sofar, offset, first.data, Segments(t), r.value.data, whole);
        assert reply[offset..replyOffset + replyLen] == whole[offset..];
      }
    }

    /** The exchange itself. */
    method Fetch(card: Card) returns (ok: bool, ghost frame: seq<byte>, ghost r: Option<Reply>)
      requires card.Valid() && replyOffset + replyLen <= reply.Length
      modifies this, reply, card
      ensures card.Valid() && ok == r.Some? && card.log == old(card.log) + [Exchange(frame, r)]
      ensures IsContinue(frame, old(sw)) && replyOffset == old(replyOffset + replyLen)
      ensures ok ==> card.at > old(card.at) && sw == r.value.sw && Holds(r.value.data)
      ensures reply[..replyOffset] == old(reply[..replyOffset + replyLen])
    {
      PrepareContinue();
      frame := Frame();
      ok, r := Transceive(card, frame);
    }

    /** The command that fetches more, and the place for what it fetches. */
    method PrepareContinue()
      requires replyOffset + replyLen <= reply.Length
      modifies this
      ensures sw == old(sw) && data == None && replyOffset == old(replyOffset + replyLen)
      ensures IsContinue(Frame(), sw)
    {
      h := Header(CLA_ISO, INS_CONTINUE, 0, 0);
      if BytesRemaining(sw) {
        le := sw.sw2;
      }
      data := None;
      replyOffset := replyOffset + replyLen;
    }

    /** The receiving half of piv_apdu_transceive_chain. */
    method Receive(card: Card, ghost first: Reply) returns (ok: bool, ghost t: seq<Exchange>)
      requires card.Valid() && sw == first.sw && Holds(first.data)
      modifies this, reply, card
      ensures card.Valid() && card.log == old(card.log) + t && Continued(first, t)
      ensures ok ==> sw == FinalStatus(first, t) && var last := ReplyAt(first, t, |t|); !MoreExpected(last.sw, |last.data|)
      ensures ok ==> replyOffset == old(replyOffset) && Holds(first.data + Segments(t))
      ensures !ok ==> t != [] && t[|t| - 1].reply.None?
    {
      var offset, gotok := replyOffset, false;
      t := [];
      while MoreExpected(sw, replyLen)
        invariant card.Valid() && card.log == old(card.log) + t && Receiving(first, t, offset)
        invariant gotok == GotOk(first, t)
        decreases |card.script| - card.at
      {
        if sw == SW_NO_ERROR {
          gotok := true;
        }
        ok, t := Continue(card, first, t, offset);
        if !ok {
          return;
        }
      }
      Finish(offset, gotok);
      ok := true;
    }

    /** The segments exposed as one reply. */
    method Finish(offset: nat, gotok: bool)
      requires offset <= replyOffset && replyOffset + replyLen + 2 <= reply.Length
      modifies this`sw, this`replyLen, this`replyOffset
      ensures replyOffset == offset && Holds(old(reply[offset..replyOffset + replyLen]))
      ensures sw == if gotok && old(sw) == SW_WRONG_DATA then SW_NO_ERROR else old(sw)
    {
      if gotok && sw == SW_WRONG_DATA {
        sw := SW_NO_ERROR;
      }
      replyLen := replyLen + replyOffset - offset;
      replyOffset := offset;
    }

    /** piv_apdu_transceive_chain.  s is the command part of the conversation and t the CONTINUEs.
        If the card takes every command, the payload has gone out whole and the reply is that of the
        last command followed by all segments; if it refuses one, that reply is handed back. */
    method TransceiveChain(card: Card) returns (ok: bool, ghost s: seq<Exchange>, ghost t: seq<Exchange>)
      requires card.Valid() && replyOffset <= reply.Length
      requires cmdOffset == 0 && cmdLen == |Bytes(data)| && (data.Some? ==> cmdLen > 0)
      modifies this, reply, card
      ensures card.Valid() && card.log == old(card.log) + s + t
      ensures s != [] && Sent(s, old(h), old(data), old(le))
      ensures AcceptedData(s) == Bytes(old(data))[..Progress(s, Bytes(old(data)))]
      ensures ok ==> s[|s| - 1].reply.Some? && replyOffset == old(replyOffset)
      ensures ok && !Accepted(s[|s| - 1].reply.value.sw) ==>
        var r := s[|s| - 1].reply.value; t == [] && sw == r.sw && Holds(r.data)
      ensures ok && Accepted(s[|s| - 1].reply.value.sw) ==>
        var first := s[|s| - 1].reply.value;
        && AcceptedData(s) == Bytes(old(data)) && Continued(first, t)
        && Holds(first.data + Segments(t)) && sw == FinalStatus(first, t)
        && var last := ReplyAt(first, t, |t|); !MoreExpected(last.sw, |last.data|)
    {
      var done;
      ok, done, s := Send(card);
      SentConcatenates(s, old(h), old(data), old(le));
      t := [];
      if !ok || !done {
        assert card.log == old(card.log) + s + t;
        return;
      }
      ghost var log := card.log;
      ok, t := Receive(card, s[|s| - 1].reply.value);
      assert card.log == log + t;
      assert Bytes(old(data))[..|Bytes(old(data))|] == Bytes(old(data));
    }
  }
}
