/** The ChaCha stream cipher (chapoly/chacha.c), with its 64-bit block counter. */
module ChaCha {
  import opened Bits

  type State = s: seq<u32> | |s| == 16 witness seq(16, _ => 0)

  // ---- the block function ----

  /** A rotation by n bits, for p = 2^n and q = 2^(32-n): the low bits move up, the high bits come
      down. */
  function Rotl(v: u32, p: nat, q: nat): (r: u32)
    requires p > 0 && q > 0 && p * q == B32
  {
    RotlBound(v, p, q);
    v % q * p + v / q
  }

  lemma RotlBound(v: u32, p: nat, q: nat)
    requires p > 0 && q > 0 && p * q == B32
    ensures 0 <= v % q * p + v / q < B32
  {
    var h, l := Euclid(v, q);
    Below(h, l, p, q);
    MulLe(l, q - 1, p, p);
    assert (q - 1) * p == p * q - p;
  }

  lemma Below(h: nat, l: nat, p: nat, q: nat)
    requires l + q * h < p * q && q > 0
    ensures h < p
  {
    assert h >= p ==> q * h >= q * p;
  }

  function XorWord(a: u32, b: u32): u32 {
    Pow2Words();
    XorBound(a, b, 32);
    Xor(a, b)
  }

  function XorByte(a: byte, b: byte): byte {
    Pow2Words();
    XorBound(a, b, 8);
    Xor(a, b)
  }

  function QuarterRound(s: State, a: nat, b: nat, c: nat, d: nat): State
    requires a < 16 && b < 16 && c < 16 && d < 16
  {
    var s := s[a := Add32(s[a], s[b])];
    var s := s[d := Rotl(XorWord(s[d], s[a]), 0x10000, 0x10000)];
    var s := s[c := Add32(s[c], s[d])];
    var s := s[b := Rotl(XorWord(s[b], s[c]), 0x1000, 0x100000)];
    var s := s[a := Add32(s[a], s[b])];
    var s := s[d := Rotl(XorWord(s[d], s[a]), 0x100, 0x1000000)];
    var s := s[c := Add32(s[c], s[d])];
    s[b := Rotl(XorWord(s[b], s[c]), 0x80, 0x2000000)]
  }

  /** Four columns, then four diagonals. */
  function TwoRounds(s: State): State {
    var s := QuarterRound(s, 0, 4, 8, 12);
    var s := QuarterRound(s, 1, 5, 9, 13);
    var s := QuarterRound(s, 2, 6, 10, 14);
    var s := QuarterRound(s, 3, 7, 11, 15);
    var s := QuarterRound(s, 0, 5, 10, 15);
    var s := QuarterRound(s, 1, 6, 11, 12);
    var s := QuarterRound(s, 2, 7, 8, 13);
    QuarterRound(s, 3, 4, 9, 14)
  }

  /** The same, folded: proofs about the stream do not look inside a round. */
  function DoubleRound(s: State, depth: nat): State
    decreases depth, s
  {
    if depth == 0 then TwoRounds(s) else DoubleRound(s, depth - 1)
  }

  lemma DoubleRoundIs(s: State)
    ensures DoubleRound(s, 4) == TwoRounds(s)
  {
    assert DoubleRound(s, 4) == DoubleRound(s, 3) == DoubleRound(s, 2) == DoubleRound(s, 1) == DoubleRound(s, 0);
  }

  function Rounds(s: State, n: nat): State
    decreases n, s
  {
    if n == 0 then s else DoubleRound(Rounds(s, n - 1), 4)
  }

  /** The sixteen key stream words of a state. */
  function Words(j: State): State {
    var x := Rounds(j, 10);
    seq(16, i requires 0 <= i < 16 => Add32(x[i], j[i]))
  }

  /** Byte k of the words, each least significant byte first. */
  function ByteOf(x: State, k: nat): byte
    requires k < 64
  {
    ByteOfWord(x[k / 4], k % 4)
  }

  function ByteOfWord(v: u32, k: nat): byte
    requires k < 4
  {
    (if k == 0 then v else if k == 1 then v / 0x100 else if k == 2 then v / 0x10000 else v / 0x1000000) % 256
  }

  /** The 64 key stream bytes of a state; folded, since the stream does not depend on how they come
      about. */
  function KeyBytes(j: State, depth: nat): (b: seq<byte>)
    ensures |b| == 64
    decreases depth, j
  {
    if depth > 0 then KeyBytes(j, depth - 1) else Serialised(Words(j))
  }

  function Serialised(x: State): (b: seq<byte>)
    ensures |b| == 64
  {
    seq(64, k requires 0 <= k < 64 => ByteOf(x, k))
  }

  lemma KeyBytesAre(j: State)
    ensures KeyBytes(j, 4) == Serialised(Words(j))
  {
    assert KeyBytes(j, 4) == KeyBytes(j, 3) == KeyBytes(j, 2) == KeyBytes(j, 1) == KeyBytes(j, 0);
  }

  // ---- the key stream ----

  function Counter(j: State): nat {
    j[12] + Shifted32(j[13])
  }

  function Shifted32(v: int): int {
    B32 * v
  }

  /** The state with its block counter set, modulo 2^64. */
  function AtCounter(j: State, n: nat): State {
    j[12 := n % B32][13 := n / B32 % B32]
  }

  /** Byte i of the key stream: block counter + i / 64, offset i % 64. */
  function KeyStream(j: State, i: nat): byte {
    StreamByte(j, i, 4)
  }

  function StreamByte(j: State, i: nat, depth: nat): byte
    decreases depth, i
  {
    if depth > 0 then StreamByte(j, i, depth - 1) else KeyBytes(StateAt(j, i / 64, 4), 4)[i % 64]
  }

  lemma KeyStreamIs(j: State, i: nat)
    ensures KeyStream(j, i) == KeyBytes(StateAt(j, i / 64, 4), 4)[i % 64]
  {
    assert StreamByte(j, i, 4) == StreamByte(j, i, 3) == StreamByte(j, i, 2) == StreamByte(j, i, 1) == StreamByte(j, i, 0);
  }

  /** The state for the k-th block from here, folded. */
  function StateAt(j: State, k: nat, depth: nat): State
    decreases depth, k
  {
    if depth > 0 then StateAt(j, k, depth - 1) else AtCounter(j, Counter(j) + k)
  }

  lemma StateAtIs(j: State, k: nat)
    ensures StateAt(j, k, 4) == AtCounter(j, Counter(j) + k)
  {
    assert StateAt(j, k, 4) == StateAt(j, k, 3) == StateAt(j, k, 2) == StateAt(j, k, 1) == StateAt(j, k, 0);
  }

  /** Data combined with as much of a stream. */
  function Mix(m: seq<byte>, stream: seq<byte>): (c: seq<byte>)
    requires |m| <= |stream|
    ensures |c| == |m|
  {
    seq(|m|, i requires 0 <= i < |m| => XorByte(m[i], stream[i]))
  }

  /** Encryption and decryption. */
  function Crypt(j: State, m: seq<byte>): (c: seq<byte>)
    ensures |c| == |m|
  {
    seq(|m|, i requires 0 <= i < |m| => XorByte(m[i], KeyStream(j, i)))
  }

  lemma CryptTwice(j: State, m: seq<byte>)
    ensures Crypt(j, Crypt(j, m)) == m
  {
    forall i | 0 <= i < |m|
      ensures Crypt(j, Crypt(j, m))[i] == m[i]
    {
      var k := KeyStream(j, i);
      XorCommutes(m[i], k);
      XorCommutes(Xor(m[i], k), k);
      XorCancel(k, m[i]);
    }
  }

  lemma XorParts(l: nat, h: nat, l': nat, h': nat)
    requires l < 256 && l' < 256
    ensures Xor(l + 256 * h, l' + 256 * h') == Xor(l, l') + 256 * Xor(h, h') && Xor(l, l') < 256
  {
    Pow2Words();
    XorSplit(l, h, l', h', 8);
    ShlIsMul(h, 8);
    ShlIsMul(h', 8);
    ShlIsMul(Xor(h, h'), 8);
    XorBound(l, l', 8);
  }

  /** Read off byte by byte. */
  lemma XorLowHigh(v: nat, w: nat)
    ensures Xor(v, w) % 256 == Xor(v % 256, w % 256) && Xor(v, w) / 256 == Xor(v / 256, w / 256)
  {
    var h, l := Euclid(v, 256);
    var h', l' := Euclid(w, 256);
    XorParts(l, h, l', h');
    DivModUnique(Xor(v, w), 256, Xor(h, h'), Xor(l, l'));
  }

  /** Bytes of an exclusive or of words. */
  lemma XorBytewise(v: u32, w: u32, k: nat)
    requires k < 4
    ensures ByteOfWord(XorWord(v, w), k) == XorByte(ByteOfWord(v, k), ByteOfWord(w, k))
  {
    XorLowHigh(v, w);
    if k > 0 {
      Bytes(v); Bytes(w); Bytes(Xor(v, w));
      XorLowHigh(v / 0x100, w / 0x100);
      if k > 1 {
        XorLowHigh(v / 0x10000, w / 0x10000);
        if k > 2 {
          XorLowHigh(v / 0x1000000, w / 0x1000000);
        }
      }
    }
  }

  lemma Bytes(x: nat)
    ensures x / 0x100 / 0x100 == x / 0x10000 && x / 0x10000 / 0x100 == x / 0x1000000
  {
  }
}
