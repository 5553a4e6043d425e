/** Loading key and message words into 26-bit limbs, and the final reduction (chapoly/poly1305.c). */
module Poly1305Load {
  import opened Bits
  import opened Limbs
  import opened Poly1305Limbs

  function Word(b: seq<int>, i: nat): int
    requires i + 4 <= |b|
  {
    b[i] + 0x100 * b[i + 1] + 0x10000 * b[i + 2] + 0x1000000 * b[i + 3]
  }

  /** U8TO32_LE. */
  method Load32(b: seq<byte>, i: nat) returns (t: u32)
    requires i + 4 <= |b|
    ensures t == Word(b, i)
  {
    Pow2Words();
    var b1: nat, b2: nat, b3: nat := b[i + 1], b[i + 2], b[i + 3];
    var x := OrAbove(b[i], 0x100 * b1, 8, b1);
    x := OrAbove(x, 0x10000 * b2, 16, b2);
    t := OrAbove(x, 0x1000000 * b3, 24, b3);
  }

  /** Four little-endian words of 16 bytes. */
  method LoadBlock(b: seq<byte>, i: nat) returns (t0: u32, t1: u32, t2: u32, t3: u32)
    requires i + 16 <= |b|
    ensures Value(b[i..i + 16]) == Words(t0, t1, t2, t3)
  {
    t0 := Load32(b, i);
    t1 := Load32(b, i + 4);
    t2 := Load32(b, i + 8);
    t3 := Load32(b, i + 12);
    var c := b[i..i + 16];
    VOctet(c, 0); VOctet(c, 8);
    PLiterals();
  }

  function Words(t0: u32, t1: u32, t2: u32, t3: u32): nat {
    t0 + 0x1_00000000 * t1 + 0x1_00000000_00000000 * t2 + 0x1_00000000_00000000_00000000 * t3
  }

  /** `((((uint64_t)hi << 32) | lo) >> k) & 0x3ffffff`, for pk = 2^k. */
  method Limb26(hi: u32, lo: u32, pk: nat, ghost pr: nat, ghost pm: nat) returns (r: u32)
    requires pk > 0 && pr > 0 && pm > 0 && pk * pr == B32 && pr * pm == A1
    ensures r == lo / pk + pr * (hi % pm) < A1
  {
    Pow2Add(16, 10);
    Pow2Words();
    var x := OrAbove(lo, 0x1_00000000 * hi, 32, hi);
    ghost var q, rest := Euclid(lo, pk);
    ghost var top, m := Euclid(hi, pm);
    ShiftWords(hi, lo, pk, pr, q, rest);
    MaskShifted(hi, pr, pm, q, top, m);
    r := Mask(x / pk, 26, A1);
  }

  lemma ShiftWords(hi: int, lo: int, pk: int, pr: int, q: int, rest: int)
    requires pk > 0 && pr > 0 && pk * pr == B32 && 0 <= lo < B32 && 0 <= hi
    requires lo == rest + pk * q && 0 <= rest < pk && 0 <= q
    ensures (lo + B32 * hi) / pk == q + pr * hi >= 0
    ensures q < pr
  {
    assert lo + B32 * hi == (q + pr * hi) * pk + rest by {
      assert (pr * hi) * pk == (pk * pr) * hi;
    }
    MulLe(0, pr, 0, hi);
    DivModUnique(lo + B32 * hi, pk, q + pr * hi, rest);
    if q >= pr {
      MulLe(pk, pk, pr, q);
    }
  }

  lemma MaskShifted(hi: int, pr: int, pm: int, q: int, top: int, m: int)
    requires pr > 0 && pm > 0 && pr * pm == A1 && 0 <= q < pr
    requires hi == m + pm * top && 0 <= m < pm && 0 <= top
    ensures (q + pr * hi) % A1 == q + pr * m < A1
  {
    MulLe(pr, pr, m + 1, pm);
    MulLe(0, pr, 0, m);
    assert pr * hi == pr * m + A1 * top by {
      assert pr * (m + pm * top) == pr * m + (pr * pm) * top;
    }
    DivModUnique(q + pr * hi, A1, top, q + pr * m);
  }

  /** 16 bytes as five limbs; bit 24 of the last limb is 2^128. */
  method BlockLimbs(b: seq<byte>, i: nat, high: bool) returns (e: Limbs5)
    requires i + 16 <= |b|
    ensures e.l0 < A1 && e.l1 < A1 && e.l2 < A1 && e.l3 < A1 && e.l4 < 0x2000000
    ensures Number(e) == Value(b[i..i + 16]) + if high then 0x1_00000000_00000000_00000000_00000000 else 0
  {
    var t0, t1, t2, t3 := LoadBlock(b, i);
    Pow2Add(16, 10);
    Pow2Words();
    var e0 := Mask(t0, 26, A1);
    var e1 := Limb26(t1, t0, 0x4000000, 64, 0x100000);
    var e2 := Limb26(t2, t1, 0x100000, 0x1000, 0x4000);
    var e3 := Limb26(t3, t2, 0x4000, 0x40000, 0x100);
    var e4 := t3 / 256;
    if high {
      e4 := OrAbove(e4, 0x1000000, 24, 1);
    }
    e := Limbs5(e0, e1, e2, e3, e4);
    LimbsOfWords(t0, t1, t2, t3);
  }

  lemma LimbsOfWords(t0: u32, t1: u32, t2: u32, t3: u32)
    ensures t0 % A1 + A1 * (t0 / A1 + 64 * (t1 % 0x100000)) + A2 * (t1 / 0x100000 + 0x1000 * (t2 % 0x4000))
            + A3 * (t2 / 0x4000 + 0x40000 * (t3 % 0x100)) + A4 * (t3 / 0x100) == Words(t0, t1, t2, t3)
  {
    assert t0 == t0 % A1 + A1 * (t0 / A1);
    assert t1 == t1 % 0x100000 + 0x100000 * (t1 / 0x100000);
    assert t2 == t2 % 0x4000 + 0x4000 * (t2 / 0x4000);
    assert t3 == t3 % 0x100 + 0x100 * (t3 / 0x100);
  }

  /** Section 2.5 of RFC 8439: the bits of r that must be clear. */
  function ClampedByte(b: byte, i: nat): byte {
    if i % 4 == 3 then b % 16 else if i % 4 == 0 && i > 0 then b - b % 4 else b
  }

  function ClampedBytes(key: seq<byte>): seq<byte>
    requires |key| >= 16
  {
    seq(16, i requires 0 <= i < 16 => ClampedByte(key[i], i))
  }

  /** `x & ((2^a - 1) + ((2^b - 1) << k))`, a mask of two runs of ones. */
  method MaskTwo(x: nat, a: nat, pa: nat, k: nat, pk: nat, b: nat, pb: nat) returns (r: nat)
    requires pa == Pow2(a) && pk == Pow2(k) && pb == Pow2(b) && pa <= pk
    ensures r == x % pk % pa + pk * (x / pk % pb)
  {
    ghost var top, low := Euclid(x, pk);
    ghost var q1, m1 := Euclid(low, pa);
    ghost var q2, m2 := Euclid(top, pb);
    AndSplit(low, top, pa - 1, pb - 1, k);
    ShlIsMul(top, k); ShlIsMul(pb - 1, k); ShlIsMul(And(top, pb - 1), k);
    ShlIsMul(q1, a); ShlIsMul(q2, b);
    AndLow(m1, q1, a);
    AndLow(m2, q2, b);
    r := And(x, pa - 1 + pk * (pb - 1));
  }

  /** `w << k` in a 32-bit word, for s = 2^k: the bits above 32 - k are lost. */
  method Shl32(w: u32, s: nat, ghost d: nat) returns (r: nat)
    requires s > 0 && d > 0 && s * d == B32
    ensures r == s * (w % d)
  {
    ghost var q, m := Euclid(w, d);
    assert s * w == (s * d) * q + s * m;
    MulLe(s, s, m + 1, d);
    MulLe(0, s, 0, m);
    DivModUnique(s * w, B32, q, s * m);
    r := (s * w) % B32;
  }

  /** `((w0 >> 26) | (w1 << 6)) & 0x3ffff03`, and the two like it. */
  method KeyLimb1(w0: u32, w1: u32) returns (r: nat)
    ensures r == w0 / A1 % 4 + 0x100 * (w1 % A1 / 4 % 0x40000)
  {
    Pow2Add(16, 2); Pow2Words();
    var hi := Shl32(w1, 64, A1);
    var t := OrAbove(w0 / A1, hi, 6, w1 % A1);
    r := MaskTwo(t, 2, 4, 8, 0x100, 18, 0x40000);
    Fields(t, w0 / A1, 64, w1 % A1, 4, 0x100, 0x10);
  }

  method KeyLimb2(w1: u32, w2: u32) returns (r: nat)
    ensures r == w1 / 0x100000 % 0x100 + 0x4000 * (w2 % 0x100000 / 4 % 0x1000)
  {
    Pow2Add(8, 6); Pow2Add(8, 4); Pow2Words();
    var hi := Shl32(w2, 0x1000, 0x100000);
    var t := OrAbove(w1 / 0x100000, hi, 12, w2 % 0x100000);
    r := MaskTwo(t, 8, 0x100, 14, 0x4000, 12, 0x1000);
    Fields(t, w1 / 0x100000, 0x1000, w2 % 0x100000, 0x100, 0x4000, 0x10);
  }

  method KeyLimb3(w2: u32, w3: u32) returns (r: nat)
    ensures r == w2 / 0x4000 % 0x4000 + 0x100000 * (w3 % 0x4000 / 4 % 64)
  {
    Pow2Add(16, 2); Pow2Add(8, 6); Pow2Add(16, 4); Pow2Words();
    var hi := Shl32(w3, 0x40000, 0x4000);
    var t := OrAbove(w2 / 0x4000, hi, 18, w3 % 0x4000);
    r := MaskTwo(t, 14, 0x4000, 20, 0x100000, 6, 64);
    Fields(t, w2 / 0x4000, 0x40000, w3 % 0x4000, 0x4000, 0x100000, 0x10);
  }

  /** Two fields lo + s * hi, cut at 4s; pa divides s. */
  lemma Fields(t: int, lo: int, s: int, hi: int, pa: int, pk: int, n: int)
    requires t == lo + s * hi && 0 <= lo < s && pk == 4 * s && s == pa * n && pa > 0 && n > 0 && 0 <= hi
    ensures t % pk % pa == lo % pa && t / pk == hi / 4
  {
    UpperField(t, lo, s, hi, pk);
    LowerField(lo, s, hi % 4, pa, n);
  }

  lemma UpperField(t: int, lo: int, s: int, hi: int, pk: int)
    requires t == lo + s * hi && 0 <= lo < s && pk == 4 * s && 0 <= hi
    ensures t / pk == hi / 4 && t % pk == lo + s * (hi % 4)
  {
    var h, m := hi / 4, hi % 4;
    assert s * hi == pk * h + s * m by { assert s * (4 * h + m) == 4 * s * h + s * m; }
    MulLe(s, s, m, 3);
    DivModUnique(t, pk, h, lo + s * m);
  }

  lemma LowerField(lo: int, s: int, m: int, pa: int, n: int)
    requires s == pa * n && pa > 0
    ensures (lo + s * m) % pa == lo % pa
  {
    assert pa * n * m == (n * m) * pa;
    assert lo + s * m == (lo / pa + n * m) * pa + lo % pa;
    DivModUnique(lo + s * m, pa, lo / pa + n * m, lo % pa);
  }

  /** The five limbs of the key setup: the masks clear exactly the bits that clamping clears. */
  method ClampWords(w0: u32, w1: u32, w2: u32, w3: u32) returns (r: Limbs5)
    ensures Clamped(r) && Number(r) == Words(ClampWord(w0, 1), ClampWord(w1, 4), ClampWord(w2, 4), ClampWord(w3, 4))
  {
    Pow2Add(16, 10); Pow2Add(16, 4); Pow2Words();
    var r0 := Mask(w0, 26, A1);
    var r1 := KeyLimb1(w0, w1);
    var r2 := KeyLimb2(w1, w2);
    var r3 := KeyLimb3(w2, w3);
    var r4 := Mask(w3 / 0x100, 20, 0x100000);
    r := Limbs5(r0, r1, r2, r3, r4);
    SplitWord0(w0); SplitWord1(w1); SplitWord2(w2); SplitWord3(w3);
    JoinFields(w0 % A1, w0 / A1 % 4, w1 % A1 / 4 % 0x40000, w1 / 0x100000 % 0x100, w2 % 0x100000 / 4 % 0x1000,
               w2 / 0x4000 % 0x4000, w3 % 0x4000 / 4 % 64, w3 / 0x100 % 0x100000, r);
  }

  lemma JoinFields(a: nat, b: nat, c: nat, d: nat, e: nat, f: nat, g: nat, h: nat, r: Limbs5)
    requires r.l0 == a && r.l1 == b + 0x100 * c && r.l2 == d + 0x4000 * e && r.l3 == f + 0x100000 * g && r.l4 == h
    ensures Number(r) == (a + A1 * b) + 0x1_00000000 * (4 * c + 0x100000 * d)
      + 0x1_00000000_00000000 * (4 * e + 0x4000 * f) + 0x1_00000000_00000000_00000000 * (4 * g + 0x100 * h)
  {
  }

  /** The low 28 bits, without the two lowest when d = 4. */
  function ClampWord(w: u32, d: nat): u32
    requires d == 1 || d == 4
  {
    w % 0x10000000 - w % d
  }

  lemma SplitWord0(w: u32)
    ensures ClampWord(w, 1) == w % A1 + A1 * (w / A1 % 4)
  {
  }

  lemma SplitWord1(w: u32)
    ensures ClampWord(w, 4) == 4 * (w % A1 / 4 % 0x40000) + 0x100000 * (w / 0x100000 % 0x100)
  {
    assert w % 0x10000000 == w % 0x100000 + 0x100000 * (w / 0x100000 % 0x100);
    assert w % 0x100000 == w % 4 + 4 * (w % 0x100000 / 4);
    MiddleField(w, A1, 0x100000, 0x40000, 64);
  }

  lemma SplitWord2(w: u32)
    ensures ClampWord(w, 4) == 4 * (w % 0x100000 / 4 % 0x1000) + 0x4000 * (w / 0x4000 % 0x4000)
  {
    assert w % 0x10000000 == w % 0x4000 + 0x4000 * (w / 0x4000 % 0x4000);
    assert w % 0x4000 == w % 4 + 4 * (w % 0x4000 / 4);
    MiddleField(w, 0x100000, 0x4000, 0x1000, 64);
  }

  lemma SplitWord3(w: u32)
    ensures ClampWord(w, 4) == 4 * (w % 0x4000 / 4 % 64) + 0x100 * (w / 0x100 % 0x100000)
  {
    assert w % 0x10000000 == w % 0x100 + 0x100 * (w / 0x100 % 0x100000);
    assert w % 0x100 == w % 4 + 4 * (w % 0x100 / 4);
    MiddleField(w, 0x4000, 0x100, 64, 64);
  }

  lemma QuarterOf(x: int, m: int, t: int, q: int)
    requires x == m + 4 * t * q
    ensures x / 4 == m / 4 + t * q
  {
    assert 4 * t * q == 4 * (t * q);
  }

  /** Bits 2 up to s, taken from the low d bits. */
  lemma MiddleField(w: nat, d: nat, s: nat, t: nat, n: nat)
    requires s == 4 * t && d == s * n && t > 0 && n > 0
    ensures w % d / 4 % t == w % s / 4
  {
    var top, x := Euclid(w, d);
    var q, m := Euclid(x, s);
    assert w == (q + n * top) * s + m by { assert d * top == (n * top) * s; }
    DivModUnique(w, s, q + n * top, m);
    QuarterOf(x, m, t, q);
    DivModUnique(x / 4, t, q, m / 4);
  }

  /** The clamped multiplier of poly1305_auth. */
  method ClampKey(key: seq<byte>) returns (r: Limbs5)
    requires |key| >= 16
    ensures Clamped(r) && Number(r) == Value(ClampedBytes(key))
  {
    var t0 := Load32(key, 0);
    var t1 := Load32(key, 4);
    var t2 := Load32(key, 8);
    var t3 := Load32(key, 12);
    r := ClampWords(t0, t1, t2, t3);
    ClampedValue(key);
  }

  lemma ClampedValue(key: seq<byte>)
    requires |key| >= 16
    ensures Value(ClampedBytes(key)) == Words(ClampWord(Word(key, 0), 1), ClampWord(Word(key, 4), 4),
                                              ClampWord(Word(key, 8), 4), ClampWord(Word(key, 12), 4))
  {
    var c := ClampedBytes(key);
    ClampedWord(key, 0); ClampedWord(key, 4); ClampedWord(key, 8); ClampedWord(key, 12);
    SixteenBytes(c);
  }

  lemma SixteenBytes(b: seq<int>)
    requires |b| == 16
    ensures Value(b) == Word(b, 0) + 0x1_00000000 * Word(b, 4) + 0x1_00000000_00000000 * Word(b, 8)
                        + 0x1_00000000_00000000_00000000 * Word(b, 12)
  {
    VOctet(b, 0); VOctet(b, 8);
    PLiterals();
  }

  lemma ClampedWord(key: seq<byte>, i: nat)
    requires |key| >= 16 && i % 4 == 0 && i <= 12
    ensures Word(ClampedBytes(key), i) == ClampWord(Word(key, i), if i == 0 then 1 else 4)
  {
    ClampBits(key[i], key[i + 1], key[i + 2], key[i + 3]);
  }

  lemma ClampBits(b0: byte, b1: int, b2: int, b3: int)
    requires 0 <= b1 <= 255 && 0 <= b2 <= 255 && 0 <= b3 <= 255
    ensures (b0 + 0x100 * b1 + 0x10000 * b2 + 0x1000000 * b3) % 0x10000000
            == b0 + 0x100 * b1 + 0x10000 * b2 + 0x1000000 * (b3 % 16)
    ensures (b0 + 0x100 * b1 + 0x10000 * b2 + 0x1000000 * b3) % 4 == b0 % 4
  {
  }

  /** Fully carried limbs. */
  ghost predicate Carried(h: Limbs5) {
    h.l0 < A1 && h.l1 < A1 && h.l2 < A1 && h.l3 < A1 && h.l4 < A1
  }

  method CarryWord(x: u32) returns (h: u32, b: u32)
    ensures h < A1 && x == h + A1 * b
  {
    Pow2Add(16, 10);
    Pow2Words();
    b := x / A1;
    h := Mask(x, 26, A1);
  }

  /** The carries of poly1305_donna_finish.  The last `h1 += b` cannot reach 2^26: when a carry comes
      out of h4 it has passed through h1, which is then small. */
  method FinalCarry(h: Limbs5) returns (g: Limbs5)
    requires Settled(h)
    ensures Carried(g) && Number(g) % PRIME == Number(h) % PRIME
  {
    var h0, b0 := CarryWord(h.l0);
    var h1, b1 := CarryWord(Add32(h.l1, b0));
    var h2, b2 := CarryWord(Add32(h.l2, b1));
    var h3, b3 := CarryWord(Add32(h.l3, b2));
    var h4, b4 := CarryWord(Add32(h.l4, b3));
    assert b4 <= b3 <= b2 <= b1 <= 1 && (b1 == 1 ==> h1 < 43);
    var h0', b5 := CarryWord(Add32(h0, Mul32(b4, 5)));
    assert b5 <= b4;
    g := Limbs5(h0', Add32(h1, b5), h2, h3, h4);
    FinalCarriesAddUp(h, g, h0, h1, b0, b1, b2, b3, b4, b5);
  }

  lemma FinalCarriesAddUp(h: Limbs5, g: Limbs5, h0: int, h1: int, b0: int, b1: int, b2: int, b3: int, b4: int, b5: int)
    requires h.l0 == h0 + A1 * b0 && h.l1 + b0 == h1 + A1 * b1 && h.l2 + b1 == g.l2 + A1 * b2
    requires h.l3 + b2 == g.l3 + A1 * b3 && h.l4 + b3 == g.l4 + A1 * b4
    requires h0 + 5 * b4 == g.l0 + A1 * b5 && g.l1 == h1 + b5
    ensures Number(g) % PRIME == Number(h) % PRIME
  {
    SameResidue(Number(h), Number(g), b4);
  }

  /** The masked select: the canonical residue. */
  method Canonical(h: Limbs5) returns (g: Limbs5)
    requires Carried(h)
    ensures Carried(g) && Number(g) == Number(h) % PRIME
  {
    var g0, b0 := CarryWord(Add32(h.l0, 5));
    var g1, b1 := CarryWord(Add32(h.l1, b0));
    var g2, b2 := CarryWord(Add32(h.l2, b1));
    var g3, b3 := CarryWord(Add32(h.l3, b2));
    var g4 := Sub32(Add32(h.l4, b3), A1);
    var b := Sub32(g4 / 0x8000_0000, 1);
    var nb := ONES32 - b;
    var l0 := Select(h.l0, nb, g0, b);
    var l1 := Select(h.l1, nb, g1, b);
    var l2 := Select(h.l2, nb, g2, b);
    var l3 := Select(h.l3, nb, g3, b);
    var l4 := Select(h.l4, nb, g4, b);
    g := Limbs5(l0, l1, l2, l3, l4);
    DivModUnique(Number(h), PRIME, if b == 0 then 0 else 1, Number(g));
  }

  /** `(x & nb) | (y & b)` for complementary all-or-nothing masks. */
  method Select(x: u32, nb: u32, y: u32, b: u32) returns (r: u32)
    requires (b == 0 && nb == ONES32) || (b == ONES32 && nb == 0)
    ensures r == if b == 0 then x else y
  {
    var p := MaskWith(nb, x);
    var q := MaskWith(b, y);
    r := Or(p, q);
  }
}
