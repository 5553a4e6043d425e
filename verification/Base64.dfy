/** Base64 text (section 4 of RFC 4648) as libssh/base64.c writes and reads it. */
module Base64 {
  import opened Bits
  import opened Buffers

  const PAD: byte := 61

  /** The alphabet: A-Z, a-z, 0-9, +, /. */
  function Letter(v: nat, depth: nat): byte
    requires v < 64
    decreases depth, v
  {
    if depth > 0 then Letter(v, depth - 1)
    else if v < 26 then 65 + v
    else if v < 52 then 97 + (v - 26)
    else if v < 62 then 48 + (v - 52)
    else if v == 62 then 43
    else 47
  }

  /** The place of a character in the alphabet. */
  function Place(c: byte, depth: nat): (v: Option<nat>)
    ensures v.Some? ==> v.value < 64
    decreases depth, c
  {
    if depth > 0 then Place(c, depth - 1)
    else if 65 <= c <= 90 then Some(c - 65)
    else if 97 <= c <= 122 then Some(c - 97 + 26)
    else if 48 <= c <= 57 then Some(c - 48 + 52)
    else if c == 43 then Some(62)
    else if c == 47 then Some(63)
    else None
  }

  /** Both folded: the format depends only on their being inverse to each other. */
  function Sym(v: nat): byte
    requires v < 64
  {
    Letter(v, 4)
  }

  function Val(c: byte): (v: Option<nat>)
    ensures v.Some? ==> v.value < 64
  {
    Place(c, 4)
  }

  lemma Unfold(v: nat, c: byte)
    requires v < 64
    ensures Sym(v) == Letter(v, 0) && Val(c) == Place(c, 0)
  {
    assert Letter(v, 4) == Letter(v, 3) == Letter(v, 2) == Letter(v, 1) == Letter(v, 0);
    assert Place(c, 4) == Place(c, 3) == Place(c, 2) == Place(c, 1) == Place(c, 0);
  }

  lemma ValOfSym(v: nat)
    requires v < 64
    ensures Val(Sym(v)) == Some(v) && Sym(v) != PAD && Sym(v) != 0 && !Space(Sym(v))
  {
    Unfold(v, Sym(v));
  }

  lemma SymOfVal(c: byte)
    requires Val(c).Some?
    ensures Sym(Val(c).value) == c
  {
    Unfold(Val(c).value, c);
  }

  lemma PadIsNoLetter()
    ensures Val(PAD) == None && Val(0) == None
  {
    Unfold(0, PAD);
    Unfold(0, 0);
  }

  predicate Space(c: byte) {
    c == 32 || 9 <= c <= 13
  }

  /** Text without its white space. */
  function Strip(s: seq<byte>): (r: seq<byte>)
    ensures forall i :: 0 <= i < |r| ==> !Space(r[i])
  {
    if s == [] then [] else if Space(s[0]) then Strip(s[1..]) else [s[0]] + Strip(s[1..])
  }

  // ---- the format ----

  /** One to three bytes as four characters. */
  function Quantum(a: byte, b: byte, c: byte, n: nat): (q: seq<byte>)
    requires 1 <= n <= 3 && (n < 3 ==> c == 0) && (n < 2 ==> b == 0)
    ensures |q| == 4
  {
    [Sym(a / 4), Sym(a % 4 * 16 + b / 16),
     if n == 1 then PAD else Sym(b % 16 * 4 + c / 64),
     if n == 3 then Sym(c % 64) else PAD]
  }

  function Encode(s: seq<byte>): seq<byte> {
    if |s| == 0 then []
    else if |s| == 1 then Quantum(s[0], 0, 0, 1)
    else if |s| == 2 then Quantum(s[0], s[1], 0, 2)
    else Quantum(s[0], s[1], s[2], 3) + Encode(s[3..])
  }

  /** Four characters as one to three bytes; padding only at the very end, over zero bits. */
  function Unquantum(s: seq<byte>): Option<seq<byte>>
    requires |s| >= 4
  {
    var a, b, c, d := Val(s[0]), Val(s[1]), Val(s[2]), Val(s[3]);
    if a.None? || b.None? then None
    else
      var x := a.value * 4 + b.value / 16;
      if c.Some? then
        var y := b.value % 16 * 16 + c.value / 4;
        if d.Some? then Some([x, y, c.value % 4 * 64 + d.value])
        else if s[3] == PAD && |s| == 4 && c.value % 4 == 0 then Some([x, y])
        else None
      else if s[2] == PAD && s[3] == PAD && |s| == 4 && b.value % 16 == 0 then Some([x])
      else None
  }

  /** The reference decoder. */
  function Decode(s: seq<byte>): Option<seq<byte>> {
    if s == [] then Some([])
    else if |s| < 4 then None
    else
      var q := Unquantum(s);
      var rest := Decode(s[4..]);
      if q.None? || rest.None? then None else Some(q.value + rest.value)
  }

  /** Decoding inverts encoding. */
  lemma {:induction false} DecodeEncode(s: seq<byte>)
    ensures Decode(Encode(s)) == Some(s)
    decreases |s|
  {
    if |s| > 0 {
      if |s| <= 2 {
        var b := if |s| > 1 then s[1] else 0;
        var q := Quantum(s[0], b, 0, |s|);
        QuantumRoundTrip(s[0], b, 0, |s|, []);
        assert q + [] == q == Encode(s) && q[4..] == [];
        assert Decode(q[4..]) == Some([]);
        assert [s[0], b, 0][..|s|] == s && s + [] == s;
      } else {
        QuantumRoundTrip(s[0], s[1], s[2], 3, Encode(s[3..]));
        DecodeEncode(s[3..]);
        assert Encode(s)[4..] == Encode(s[3..]);
        assert s == [s[0], s[1], s[2]][..3] + s[3..];
      }
    }
  }

  lemma QuantumRoundTrip(a: byte, b: byte, c: byte, n: nat, rest: seq<byte>)
    requires 1 <= n <= 3 && (n < 3 ==> c == 0 && rest == []) && (n < 2 ==> b == 0)
    ensures Unquantum(Quantum(a, b, c, n) + rest) == Some([a, b, c][..n])
  {
    Regroup(a, b, c);
    PadIsNoLetter();
    ValOfSym(a / 4);
    ValOfSym(a % 4 * 16 + b / 16);
    ValOfSym(b % 16 * 4 + c / 64);
    ValOfSym(c % 64);
    if n == 1 {
      assert [a, b, c][..1] == [a];
    } else if n == 2 {
      assert [a, b, c][..2] == [a, b];
    } else {
      assert [a, b, c][..3] == [a, b, c];
    }
  }

  /** Three bytes in sixes and back. */
  lemma Regroup(a: int, b: int, c: int)
    requires 0 <= a < 256 && 0 <= b < 256 && 0 <= c < 256
    ensures a / 4 * 4 + (a % 4 * 16 + b / 16) / 16 == a
    ensures (a % 4 * 16 + b / 16) % 16 * 16 + (b % 16 * 4 + c / 64) / 4 == b
    ensures (b % 16 * 4 + c / 64) % 4 * 64 + c % 64 == c
  {
  }

  /** Four sixes in bytes and back. */
  lemma Ungroup(a: int, b: int, c: int, d: int)
    requires 0 <= a < 64 && 0 <= b < 64 && 0 <= c < 64 && 0 <= d < 64
    ensures var x, y, z := a * 4 + b / 16, b % 16 * 16 + c / 4, c % 4 * 64 + d;
      && 0 <= x < 256 && 0 <= y < 256 && 0 <= z < 256 && x / 4 == a && x % 4 * 16 + y / 16 == b
      && y % 16 * 4 + z / 64 == c && z % 64 == d
  {
  }

  /** Whatever is accepted is the encoding of the result. */
  lemma {:induction false} EncodeDecode(s: seq<byte>)
    requires Decode(s).Some?
    ensures Encode(Decode(s).value) == s
  {
    if s != [] {
      var q, rest := Unquantum(s).value, Decode(s[4..]).value;
      EncodeDecode(s[4..]);
      UnquantumRoundTrip(s);
      if |q| == 3 {
        assert (q + rest)[3..] == rest;
        assert s == s[..4] + s[4..];
      } else {
        assert s[4..] == [] && rest == [] && q + rest == q && s[..4] == s;
      }
    }
  }

  lemma UnquantumRoundTrip(s: seq<byte>)
    requires |s| >= 4 && Unquantum(s).Some?
    ensures var q := Unquantum(s).value;
      1 <= |q| <= 3 && (|q| < 3 ==> |s| == 4)
      && Quantum(q[0], if |q| > 1 then q[1] else 0, if |q| > 2 then q[2] else 0, |q|) == s[..4]
  {
    SymOfVal(s[0]);
    SymOfVal(s[1]);
    var a, b := Val(s[0]).value, Val(s[1]).value;
    if Val(s[2]).None? {
      QuantumOf(a, b, 0, 0, 1);
    } else {
      SymOfVal(s[2]);
      var c := Val(s[2]).value;
      if Val(s[3]).None? {
        QuantumOf(a, b, c, 0, 2);
      } else {
        SymOfVal(s[3]);
        QuantumOf(a, b, c, Val(s[3]).value, 3);
      }
    }
    assert s[..4] == [s[0], s[1], s[2], s[3]];
  }

  lemma QuantumOf(a: nat, b: nat, c: nat, d: nat, n: nat)
    requires a < 64 && b < 64 && c < 64 && d < 64 && 1 <= n <= 3
    requires (n == 1 ==> b % 16 == 0 && c == 0) && (n == 2 ==> c % 4 == 0) && (n < 3 ==> d == 0)
    ensures Quantum(a * 4 + b / 16, b % 16 * 16 + c / 4, c % 4 * 64 + d, n)
         == [Sym(a), Sym(b), if n == 1 then PAD else Sym(c), if n == 3 then Sym(d) else PAD]
  {
    Ungroup(a, b, c, d);
  }
}
