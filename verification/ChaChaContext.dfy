/** The code of chapoly/chacha.c: a context updated in place, data encrypted from buffer to buffer. */
module ChaChaContext {
  import opened Bits
  import opened Buffers
  import opened ChaCha
  import opened Limbs

  /** Bytes to words, least significant first. */
  function Load(s: seq<byte>, at: nat): u32
    requires at + 4 <= |s|
  {
    Joined(s[at], s[at + 1], s[at + 2], s[at + 3], 3)
  }

  /** The word of four bytes, folded. */
  function Joined(a: byte, b: byte, c: byte, d: byte, depth: nat): u32
    decreases depth, a
  {
    if depth > 0 then Joined(a, b, c, d, depth - 1) else a + 0x100 * b + 0x10000 * c + 0x1000000 * d
  }

  lemma JoinedIs(a: byte, b: byte, c: byte, d: byte)
    ensures Joined(a, b, c, d, 3) == a + 0x100 * b + 0x10000 * c + 0x1000000 * d
  {
    assert Joined(a, b, c, d, 3) == Joined(a, b, c, d, 2) == Joined(a, b, c, d, 1) == Joined(a, b, c, d, 0);
  }

  lemma ByteOfLoad(s: seq<byte>, at: nat, k: nat)
    requires at + 4 <= |s| && k < 4
    ensures ByteOfWord(Load(s, at), k) == s[at + k]
  {
    var a: int, b: int, c: int, d: int := s[at], s[at + 1], s[at + 2], s[at + 3];
    var v := Joined(a, b, c, d, 3);
    JoinedIs(a, b, c, d);
    if k == 0 {
      DivModUnique(v, 0x100, b + 0x100 * c + 0x10000 * d, a);
    } else if k == 1 {
      DivModUnique(v, 0x100, b + 0x100 * c + 0x10000 * d, a);
      DivModUnique(v / 0x100, 0x100, c + 0x100 * d, b);
    } else if k == 2 {
      DivModUnique(v, 0x10000, c + 0x100 * d, a + 0x100 * b);
      DivModUnique(v / 0x10000, 0x100, d, c);
    } else {
      DivModUnique(v, 0x1000000, d, a + 0x100 * b + 0x10000 * c);
    }
  }

  /** "expand 32-byte k" and "expand 16-byte k". */
  const SIGMA: seq<byte> := [101, 120, 112, 97, 110, 100, 32, 51, 50, 45, 98, 121, 116, 101, 32, 107]
  const TAU: seq<byte> := [101, 120, 112, 97, 110, 100, 32, 49, 54, 45, 98, 121, 116, 101, 32, 107]

  /** The first n words of a byte string. */
  function LoadAll(s: seq<byte>, n: nat): (w: seq<u32>)
    requires 4 * n <= |s|
    ensures |w| == n && forall i :: 0 <= i < n ==> w[i] == Load(s, 4 * i)
    decreases n, s
  {
    if n == 0 then [] else LoadAll(s, n - 1) + [Load(s, 4 * (n - 1))]
  }

  /** The twelve words that depend on a 256-bit key. */
  function KeyWords(key: seq<byte>): (w: seq<u32>)
    requires |key| == 32
    ensures |w| == 12
  {
    LoadAll(SIGMA, 4) + LoadAll(key, 8)
  }

  /** The same for a 128-bit key, which is used twice. */
  function ShortKeyWords(key: seq<byte>): (w: seq<u32>)
    requires |key| == 16
    ensures |w| == 12
  {
    LoadAll(TAU, 4) + LoadAll(key, 4) + LoadAll(key, 4)
  }

  /** The four words of counter and nonce. */
  function IvWords(iv: seq<byte>, counter: seq<byte>): (w: seq<u32>)
    requires |iv| == 8 && |counter| == 8
    ensures |w| == 4
  {
    LoadAll(counter, 2) + LoadAll(iv, 2)
  }

  /** No counter means 0. */
  function CounterBytes(counter: Option<seq<byte>>): seq<byte> {
    if counter.Some? then counter.value else [0, 0, 0, 0, 0, 0, 0, 0]
  }

  /** Two words spell the eight bytes they were loaded from. */
  lemma LoadedCounter(b: seq<byte>)
    requires |b| == 8
    ensures Load(b, 0) + Shifted32(Load(b, 4)) == Value(b)
  {
    JoinedIs(b[0], b[1], b[2], b[3]);
    JoinedIs(b[4], b[5], b[6], b[7]);
    VOctet(b, 0);
    assert V(b, 0) == 0 && P(0) == 1;
  }

  method RoundPair(s: State) returns (x: State)
    ensures x == DoubleRound(s, 4)
  {
    x := QuarterRound(s, 0, 4, 8, 12);
    x := QuarterRound(x, 1, 5, 9, 13);
    x := QuarterRound(x, 2, 6, 10, 14);
    x := QuarterRound(x, 3, 7, 11, 15);
    x := QuarterRound(x, 0, 5, 10, 15);
    x := QuarterRound(x, 1, 6, 11, 12);
    x := QuarterRound(x, 2, 7, 8, 13);
    x := QuarterRound(x, 3, 4, 9, 14);
    DoubleRoundIs(s);
  }

  /** Twenty rounds, and the input added again. */
  method Block(j: State) returns (x: State)
    ensures x == Words(j)
  {
    x := j;
    var i := 20;
    while i > 0
      invariant 0 <= i <= 20 && i % 2 == 0 && x == Rounds(j, (20 - i) / 2)
    {
      x := RoundPair(x);
      i := i - 2;
    }
    x := seq(16, k requires 0 <= k < 16 => Add32(x[k], j[k]));
  }

  /** The words of a block combined with 64 bytes of data. */
  function XorWords(x: State, m: seq<byte>): State
    requires |m| == 64
  {
    seq(16, i requires 0 <= i < 16 => XorWord(x[i], Load(m, 4 * i)))
  }

  lemma XorWordsByte(x: State, m: seq<byte>, k: nat)
    requires |m| == 64 && k < 64
    ensures ByteOf(XorWords(x, m), k) == XorByte(m[k], ByteOf(x, k))
  {
    var i, t := k / 4, k % 4;
    XorBytewise(x[i], Load(m, 4 * i), t);
    ByteOfLoad(m, 4 * i, t);
    XorCommutes(ByteOfWord(x[i], t), m[k]);
  }

  lemma XorWordsBytes(x: State, m: seq<byte>)
    requires |m| == 64
    ensures Serialised(XorWords(x, m)) == Mix(m, Serialised(x))
  {
    forall k | 0 <= k < 64
      ensures Serialised(XorWords(x, m))[k] == Mix(m, Serialised(x))[k]
    {
      XorWordsByte(x, m, k);
    }
  }

  /** 64 bytes from m to c, which may be the same place: all words are read before any is stored. */
  method XorBlock(x: State, m: array<byte>, mo: nat, c: array<byte>, co: nat, ghost ks: seq<byte>)
    requires mo + 64 <= m.Length && co + 64 <= c.Length && ks == Serialised(x)
    modifies c
    ensures c[co..co + 64] == Mix(old(m[mo..mo + 64]), ks)
    ensures forall p :: (0 <= p < co || co + 64 <= p < c.Length) ==> c[p] == old(c[p])
  {
    var y := XorWords(x, m[mo..mo + 64]);
    XorWordsBytes(x, m[mo..mo + 64]);
    Put(c, co, Serialised(y));
  }

  // ---- stream positions ----

  /** Within a block, the key stream is that block's key bytes. */
  lemma KeyStreamInBlock(input: State, blocks: nat, i: nat)
    requires i < 64
    ensures KeyStream(input, 64 * blocks + i) == KeyBytes(StateAt(input, blocks, 4), 4)[i]
  {
    KeyStreamIs(input, 64 * blocks + i);
    DivModUnique(64 * blocks + i, 64, blocks, i);
  }

  /** Up to 64 bytes; a short block goes through a temporary buffer. */
  method OneBlock(j: State, m: array<byte>, mo: nat, c: array<byte>, co: nat, n: nat)
    requires n <= 64 && mo + n <= m.Length && co + n <= c.Length
    modifies c
    ensures forall p :: co <= p < co + n ==> c[p] == XorByte(old(m[mo + p - co]), KeyBytes(j, 4)[p - co])
    ensures forall p :: (0 <= p < co || co + n <= p < c.Length) ==> c[p] == old(c[p])
  {
    var x := Block(j);
    KeyBytesAre(j);
    if n < 64 {
      ShortBlock(x, m, mo, c, co, n, KeyBytes(j, 4));
    } else {
      XorBlock(x, m, mo, c, co, KeyBytes(j, 4));
    }
    ghost var data, made := old(m[mo..mo + n]), c[co..co + n];
    assert made == Mix(data, KeyBytes(j, 4));
    forall p | co <= p < co + n
      ensures c[p] == XorByte(old(m[mo + p - co]), KeyBytes(j, 4)[p - co])
    {
      assert c[p] == made[p - co] && data[p - co] == old(m[mo + p - co]);
    }
  }

  method ShortBlock(x: State, m: array<byte>, mo: nat, c: array<byte>, co: nat, n: nat, ghost ks: seq<byte>)
    requires n <= 64 && mo + n <= m.Length && co + n <= c.Length && ks == Serialised(x)
    modifies c
    ensures c[co..co + n] == Mix(old(m[mo..mo + n]), ks)
    ensures forall p :: (0 <= p < co || co + n <= p < c.Length) ==> c[p] == old(c[p])
  {
    var tmp := new byte[64];
    Put(tmp, 0, m[mo..mo + n]);
    ghost var padded := tmp[..];
    assert padded[..n] == tmp[0..0 + n] == m[mo..mo + n];
    XorBlock(x, tmp, 0, tmp, 0, ks);
    assert tmp[..] == tmp[0..0 + 64] && padded == padded[0..64];
    assert tmp[..] == Mix(padded, ks);
    MixPrefix(padded, ks, n);
    Put(c, co, tmp[..n]);
  }

  lemma MixPrefix(m: seq<byte>, ks: seq<byte>, n: nat)
    requires n <= |m| <= |ks|
    ensures Mix(m, ks)[..n] == Mix(m[..n], ks)
  {
  }

  /** PLUSONE on the counter words. */
  function Incremented(j: State): State {
    var low := Add32(j[12], 1);
    j[12 := low][13 := if low == 0 then Add32(j[13], 1) else j[13]]
  }

  /** One step along the stream: of the whole input data and output out, the first at bytes are done. */
  method NextBlock(j: State, m: array<byte>, mo: nat, c: array<byte>, co: nat, blocks: nat, n: nat,
                   ghost data: seq<byte>, ghost input: State)
    returns (j': State)
    requires 0 < n <= 64 && 64 * blocks + n <= |data|
    requires mo + |data| <= m.Length && co + |data| <= c.Length && (m != c || mo == co)
    requires forall p :: mo + 64 * blocks <= p < mo + |data| ==> m[p] == data[p - mo]
    requires j == StateAt(input, blocks, 4)
    modifies c
    ensures forall p :: co + 64 * blocks <= p < co + 64 * blocks + n ==> c[p] == XorByte(data[p - co], KeyStream(input, p - co))
    ensures forall p :: (0 <= p < co + 64 * blocks || co + 64 * blocks + n <= p < c.Length) ==> c[p] == old(c[p])
    ensures j' == StateAt(input, blocks + 1, 4)
  {
    var at := 64 * blocks;
    OneBlock(j, m, mo + at, c, co + at, n);
    forall p | co + at <= p < co + at + n
      ensures c[p] == XorByte(data[p - co], KeyStream(input, p - co))
    {
      KeyStreamInBlock(input, blocks, p - co - at);
    }
    NextState(input, blocks);
    j' := Incremented(j);
  }

  lemma NextState(input: State, blocks: nat)
    ensures StateAt(input, blocks + 1, 4) == Incremented(StateAt(input, blocks, 4))
  {
    StateAtIs(input, blocks);
    StateAtIs(input, blocks + 1);
    NextCounter(input, Counter(input) + blocks, AtCounter(input, Counter(input) + blocks));
  }

  lemma BlocksBegun(at: nat, bytes: nat)
    requires at % 64 == 0 && at < bytes <= at + 64
    ensures (bytes + 63) / 64 == at / 64 + 1
  {
  }

  /** The counter words carry into each other. */
  lemma NextCounter(j: State, n: nat, k: State)
    requires k == AtCounter(j, n)
    ensures AtCounter(j, n + 1) == Incremented(k)
  {
    var h, l := Euclid(n, B32);
    if l + 1 == B32 {
      DivModUnique(n + 1, B32, h + 1, 0);
    } else {
      DivModUnique(n + 1, B32, h, l + 1);
    }
  }

  lemma CounterIsSet(j: State)
    ensures AtCounter(j, Counter(j)) == j
  {
    DivModUnique(Counter(j), B32, j[13], j[12]);
  }

  /** The loop of chacha_encrypt_bytes. */
  method CryptBuffer(input: State, m: array<byte>, mo: nat, c: array<byte>, co: nat, bytes: u32) returns (j: State)
    requires 0 < bytes && mo + bytes <= m.Length && co + bytes <= c.Length && (m != c || mo == co)
    modifies c
    ensures c[co..co + bytes] == Crypt(input, old(m[mo..mo + bytes]))
    ensures forall p :: (0 <= p < co || co + bytes <= p < c.Length) ==> c[p] == old(c[p])
    ensures j == StateAt(input, (bytes + 63) / 64, 4)
  {
    CounterIsSet(input);
    StateAtIs(input, 0);
    ghost var data := m[mo..mo + bytes];
    var blocks: nat := 0;
    j := input;
    while bytes - 64 * blocks > 64
      invariant 64 * blocks < bytes && j == StateAt(input, blocks, 4)
      invariant forall p :: mo + 64 * blocks <= p < mo + bytes ==> m[p] == data[p - mo]
      invariant forall p :: co <= p < co + 64 * blocks ==> c[p] == XorByte(data[p - co], KeyStream(input, p - co))
      invariant forall p :: (0 <= p < co || co + 64 * blocks <= p < c.Length) ==> c[p] == old(c[p])
    {
      j := NextBlock(j, m, mo, c, co, blocks, 64, data, input);
      blocks := blocks + 1;
    }
    j := NextBlock(j, m, mo, c, co, blocks, bytes - 64 * blocks, data, input);
    BlocksBegun(64 * blocks, bytes);
    ghost var out := c[co..co + bytes];
    assert forall p :: 0 <= p < bytes ==> out[p] == c[co + p];
    AllCrypted(out, input, data);
  }

  lemma AllCrypted(out: seq<byte>, input: State, data: seq<byte>)
    requires |out| == |data| && forall p :: 0 <= p < |out| ==> out[p] == XorByte(data[p], KeyStream(input, p))
    ensures out == Crypt(input, data)
  {
  }

  lemma TwoWords(a: u32, b: u32, s: seq<byte>)
    requires |s| == 8 && a == Load(s, 0) && b == Load(s, 4)
    ensures LoadAll(s, 2) == [a, b]
  {
    assert LoadAll(s, 1) == LoadAll(s, 0) + [a];
    assert LoadAll(s, 2) == LoadAll(s, 1) + [b];
  }

  lemma FourWords(x: State, iv: seq<byte>, counter: seq<byte>)
    requires |iv| == 8 && |counter| == 8
    requires x[12] == Load(counter, 0) && x[13] == Load(counter, 4) && x[14] == Load(iv, 0) && x[15] == Load(iv, 4)
    ensures x[12..] == IvWords(iv, counter)
  {
    TwoWords(x[12], x[13], counter);
    TwoWords(x[14], x[15], iv);
    assert x[12..] == [x[12], x[13]] + [x[14], x[15]];
  }

  lemma ZeroWord(s: seq<byte>, at: nat)
    requires at + 4 <= |s| && forall i :: 0 <= i < |s| ==> s[i] == 0
    ensures Load(s, at) == 0
  {
    JoinedIs(0, 0, 0, 0);
  }

  /** A counter word, 0 without a counter. */
  function CounterWord(counter: Option<seq<byte>>, at: nat): u32
    requires counter.Some? ==> at + 4 <= |counter.value|
  {
    if counter.None? then 0 else Load(counter.value, at)
  }

  lemma CounterWordIs(counter: Option<seq<byte>>, at: nat)
    requires (counter.Some? ==> |counter.value| == 8) && at <= 4
    ensures CounterWord(counter, at) == Load(CounterBytes(counter), at)
  {
    if counter.None? {
      ZeroWord(CounterBytes(counter), at);
    }
  }

  method PutLast(x: State, a: u32, b: u32, c: u32, d: u32) returns (y: State)
    ensures y[..12] == x[..12] && y[12] == a && y[13] == b && y[14] == c && y[15] == d
  {
    y := x[12 := a];
    y := y[13 := b];
    y := y[14 := c];
    y := y[15 := d];
  }

  /** Four words of s from position from, stored at to. */
  method PutWords(x: State, to: nat, s: seq<byte>, from: nat) returns (y: State)
    requires to + 4 <= 16 && from + 16 <= |s|
    ensures forall i :: 0 <= i < 16 ==> y[i] == if to <= i < to + 4 then Load(s, from + 4 * (i - to)) else x[i]
  {
    y := x[to := Load(s, from)];
    y := y[to + 1 := Load(s, from + 4)];
    y := y[to + 2 := Load(s, from + 8)];
    y := y[to + 3 := Load(s, from + 12)];
  }

  /** Constants, the first half of the key and its half from at, word by word. */
  lemma KeyWordsAre(x: State, key: seq<byte>, constants: seq<byte>, at: nat)
    requires |constants| == 16 && |key| == at + 16
    requires forall i :: 0 <= i < 4 ==> x[i] == Load(constants, 4 * i)
    requires forall i :: 4 <= i < 8 ==> x[i] == Load(key, 4 * (i - 4))
    requires forall i :: 8 <= i < 12 ==> x[i] == Load(key, at + 4 * (i - 8))
    ensures at == 16 && constants == SIGMA ==> x[..12] == KeyWords(key)
    ensures at == 0 && constants == TAU ==> x[..12] == ShortKeyWords(key)
  {
    Loaded(x, 0, constants, 4);
    if at == 16 {
      assert forall i :: 0 <= i < 8 ==> x[4 + i] == Load(key, 4 * i);
      Loaded(x, 4, key, 8);
      ThreeSlices(x, 0, 4, 12);
    } else if at == 0 {
      assert forall i :: 0 <= i < 4 ==> x[4 + i] == Load(key, 4 * i) == x[8 + i];
      Loaded(x, 4, key, 4);
      Loaded(x, 8, key, 4);
      ThreeSlices(x, 4, 8, 12);
    }
  }

  /** Words one by one are the words of the string. */
  lemma Loaded(x: State, to: nat, s: seq<byte>, n: nat)
    requires to + n <= 16 && 4 * n <= |s| && forall i :: 0 <= i < n ==> x[to + i] == Load(s, 4 * i)
    ensures x[to..to + n] == LoadAll(s, n)
  {
  }

  class Context {
    var input: State

    constructor () {
      input := seq(16, _ => 0);
    }

    /** chacha_keysetup: constants and key by words; counter and nonce stay as they are. */
    method KeySetup(key: seq<byte>, kbits: nat)
      requires |key| == if kbits == 256 then 32 else 16
      modifies this
      ensures input[..12] == if kbits == 256 then KeyWords(key) else ShortKeyWords(key)
      ensures input[12..] == old(input[12..])
    {
      var x := PutWords(input, 4, key, 0);
      var at, constants := 0, TAU;
      if kbits == 256 {
        at, constants := 16, SIGMA;
      }
      x := PutWords(x, 8, key, at);
      x := PutWords(x, 0, constants, 0);
      KeyWordsAre(x, key, constants, at);
      assert x[12..] == input[12..];
      input := x;
    }

    /** chacha_ivsetup: the counter becomes the number its bytes spell; the key words stay as they are. */
    method IvSetup(iv: seq<byte>, counter: Option<seq<byte>>)
      requires |iv| == 8 && (counter.Some? ==> |counter.value| == 8)
      modifies this
      ensures input[..12] == old(input[..12]) && input[12..] == IvWords(iv, CounterBytes(counter))
      ensures Counter(input) == Value(CounterBytes(counter))
    {
      var low, high := CounterWord(counter, 0), CounterWord(counter, 4);
      CounterWordIs(counter, 0);
      CounterWordIs(counter, 4);
      var n0, n1 := Load(iv, 0), Load(iv, 4);
      input := PutLast(input, low, high, n0, n1);
      FourWords(input, iv, CounterBytes(counter));
      LoadedCounter(CounterBytes(counter));
    }

    /** chacha_encrypt_bytes: byte i meets key stream byte i, and the counter moves on by the number
        of blocks begun. */
    method EncryptBytes(m: array<byte>, mo: nat, c: array<byte>, co: nat, bytes: u32)
      requires mo + bytes <= m.Length && co + bytes <= c.Length && (m != c || mo == co)
      modifies this, c
      ensures c[co..co + bytes] == Crypt(old(input), old(m[mo..mo + bytes]))
      ensures forall p :: (0 <= p < co || co + bytes <= p < c.Length) ==> c[p] == old(c[p])
      ensures input == AtCounter(old(input), Counter(old(input)) + (bytes + 63) / 64)
    {
      CounterIsSet(input);
      if bytes == 0 {
        return;
      }
      var j := CryptBuffer(input, m, mo, c, co, bytes);
      StateAtIs(input, (bytes + 63) / 64);
      input := input[12 := j[12]][13 := j[13]];
    }
  }
}
