/** poly1305_auth (chapoly/poly1305.c) computes the polynomial of section 2.5 of RFC 8439. */
module Poly1305 {
  import opened Bits
  import opened Limbs
  import opened Field
  import opened Poly1305Limbs
  import opened Poly1305Load

  const P128: nat := 0x1_00000000_00000000_00000000_00000000

  /** A block of at most 16 bytes with the byte 1 appended. */
  function Coefficient(block: seq<byte>): int {
    Value(block) + P(|block|)
  }

  function FirstBlock(m: seq<byte>): nat {
    if |m| < 16 then |m| else 16
  }

  function Coefficients(m: seq<byte>): seq<int> {
    if |m| == 0 then [] else [Coefficient(m[..FirstBlock(m)])] + Coefficients(m[FirstBlock(m)..])
  }

  /** c[0] r^n + c[1] r^(n-1) + ... + c[n-1] r. */
  function PowerSum(c: seq<int>, r: int): int {
    if |c| == 0 then 0 else c[0] * Pow(r, |c|) + PowerSum(c[1..], r)
  }

  /** The one-time authenticator: section 2.5 of RFC 8439. */
  function Tag(m: seq<byte>, key: seq<byte>): int
    requires |key| == 32
  {
    (PowerSum(Coefficients(m), Value(ClampedBytes(key))) % PRIME + Value(key[16..])) % P128
  }

  /** The same polynomial evaluated block by block. */
  function Horner(m: seq<byte>, r: int, acc: int): int {
    if |m| == 0 then acc
    else Horner(m[FirstBlock(m)..], r, ((acc + Coefficient(m[..FirstBlock(m)])) * r) % PRIME)
  }

  lemma ModStep(a: int, b: int, r: int) returns (k: int)
    requires a % PRIME == b % PRIME
    ensures a * r == b * r + PRIME * k
  {
    var d := a / PRIME - b / PRIME;
    assert a == b + PRIME * d;
    assert a * r == b * r + PRIME * (d * r);
    k := d * r;
  }

  lemma ModSum(a: int, b: int, c: int)
    requires a % PRIME == b % PRIME
    ensures (a + c) % PRIME == (b + c) % PRIME
  {
    var k := a / PRIME - b / PRIME;
    SameResidue(a + c, b + c, k);
  }

  /** Horner's rule evaluates the power sum. */
  lemma {:induction false} HornerIsPowerSum(m: seq<byte>, r: int, acc: int)
    ensures Horner(m, r, acc) % PRIME == (acc * Pow(r, |Coefficients(m)|) + PowerSum(Coefficients(m), r)) % PRIME
    decreases |m|
  {
    if |m| == 0 {
      assert Pow(r, 0) == 1;
    } else {
      var n := FirstBlock(m);
      var c, rest := Coefficient(m[..n]), Coefficients(m[n..]);
      var next := ((acc + c) * r) % PRIME;
      HornerIsPowerSum(m[n..], r, next);
      assert Coefficients(m) == [c] + rest && ([c] + rest)[1..] == rest;
      HornerStep(acc, c, r, Pow(r, |rest|), next, PowerSum(rest, r));
    }
  }

  lemma HornerStep(acc: int, c: int, r: int, p: int, next: int, sum: int)
    requires next == ((acc + c) * r) % PRIME
    ensures (next * p + sum) % PRIME == (acc * (r * p) + (c * (r * p) + sum)) % PRIME
  {
    var k := ((acc + c) * r) / PRIME;
    assert next == (acc + c) * r - PRIME * k;
    assert next * p == acc * (r * p) + c * (r * p) - PRIME * (k * p) by { HornerTerms(acc, c, r, p, k); }
    SameResidue(next * p + sum, acc * (r * p) + (c * (r * p) + sum), -(k * p));
  }

  lemma HornerTerms(acc: int, c: int, r: int, p: int, k: int)
    ensures ((acc + c) * r - PRIME * k) * p == acc * (r * p) + c * (r * p) - PRIME * (k * p)
  {
    assert ((acc + c) * r) * p == (acc + c) * (r * p);
    assert (PRIME * k) * p == PRIME * (k * p);
  }

  lemma ModMod(a: int)
    ensures (a % PRIME) % PRIME == a % PRIME
  {
  }

  /** Adding a block to the accumulator. */
  method AddBlock(h: Limbs5, e: Limbs5) returns (g: Limbs5)
    requires Settled(h) && e.l0 < A1 && e.l1 < A1 && e.l2 < A1 && e.l3 < A1 && e.l4 < 0x2000000
    ensures Ready(g) && Number(g) == Number(h) + Number(e)
  {
    g := Limbs5(Add32(h.l0, e.l0), Add32(h.l1, e.l1), Add32(h.l2, e.l2), Add32(h.l3, e.l3), Add32(h.l4, e.l4));
  }

  /** One block: add it, multiply by r. */
  method Absorb(h: Limbs5, e: Limbs5, r: Limbs5, ghost c: int) returns (g: Limbs5)
    requires Settled(h) && Clamped(r) && Number(e) == c
    requires e.l0 < A1 && e.l1 < A1 && e.l2 < A1 && e.l3 < A1 && e.l4 < 0x2000000
    ensures Settled(g)
    ensures Number(g) % PRIME == ((Number(h) % PRIME + c) * Number(r)) % PRIME
  {
    var t := AddBlock(h, e);
    g := MulStep(t, r);
    AbsorbStep(Number(h), c, Number(t), Number(r), Number(g));
  }

  lemma AbsorbStep(h: int, c: int, t: int, r: int, g: int)
    requires t == h + c && g % PRIME == (t * r) % PRIME
    ensures g % PRIME == ((h % PRIME + c) * r) % PRIME
  {
    ModMod(h);
    ModSum(h % PRIME, h, c);
    var k := ModStep(h % PRIME + c, t, r);
    SameResidue((h % PRIME + c) * r, t * r, k);
  }

  /** The final partial block, padded with 1 and zeros. */
  method PadBlock(m: seq<byte>) returns (mp: seq<byte>)
    requires 0 < |m| < 16
    ensures |mp| == 16 && Value(mp) == Coefficient(m)
  {
    mp := m + [1] + seq(15 - |m|, _ => 0);
    var n := |m|;
    VSplit(mp, n + 1, 16);
    VSame(mp, m, n);
    VZero(mp[n + 1..], 15 - n);
    assert V(mp, n + 1) == V(mp, n) + mp[n] * P(n);
  }

  /** The loop over blocks: the accumulator ends congruent to the polynomial. */
  method Accumulate(m: seq<byte>, r: Limbs5) returns (h: Limbs5)
    requires Clamped(r)
    ensures Settled(h) && Number(h) % PRIME == Horner(m, Number(r), 0) % PRIME
  {
    h := Limbs5(0, 0, 0, 0, 0);
    var i := 0;
    while |m| - i >= 16
      invariant 0 <= i <= |m| && Settled(h)
      invariant Horner(m[i..], Number(r), Number(h) % PRIME) == Horner(m, Number(r), 0)
    {
      var e := BlockLimbs(m, i, true);
      FullBlock(m, i);
      h := Absorb(h, e, r, Coefficient(m[i..i + 16]));
      i := i + 16;
    }
    if i < |m| {
      h := AbsorbLast(m[i..], h, r);
    }
    ModMod(Number(h));
  }

  /** The padded block at the end. */
  method AbsorbLast(m: seq<byte>, h: Limbs5, r: Limbs5) returns (g: Limbs5)
    requires 0 < |m| < 16 && Settled(h) && Clamped(r)
    ensures Settled(g) && Number(g) % PRIME == Horner(m, Number(r), Number(h) % PRIME) % PRIME
  {
    var mp := PadBlock(m);
    var e := BlockLimbs(mp, 0, false);
    assert mp[0..16] == mp;
    assert m[..FirstBlock(m)] == m && m[FirstBlock(m)..] == [];
    g := Absorb(h, e, r, Coefficient(m));
    ModMod((Number(h) % PRIME + Coefficient(m)) * Number(r));
  }

  lemma FullBlock(m: seq<byte>, i: nat)
    requires i + 16 <= |m|
    ensures Coefficient(m[i..i + 16]) == Value(m[i..i + 16]) + P128
    ensures FirstBlock(m[i..]) == 16 && m[i..][..16] == m[i..i + 16] && m[i..][16..] == m[i + 16..]
  {
    PLiterals();
  }

  /** U32TO8_LE: the low 32 bits of v. */
  method Store32(v: u64) returns (b: seq<byte>)
    ensures |b| == 4 && Word(b, 0) == v % B32
  {
    b := [v % 0x100, v / 0x100 % 0x100, v / 0x10000 % 0x100, v / 0x1000000 % 0x100];
    FourBytes(v);
  }

  lemma FourBytes(v: nat)
    ensures v % 0x100 + 0x100 * (v / 0x100 % 0x100) + 0x10000 * (v / 0x10000 % 0x100)
            + 0x1000000 * (v / 0x1000000 % 0x100) == v % 0x100000000
  {
    TakeByte(v, 0x100); TakeByte(v, 0x10000); TakeByte(v, 0x1000000);
  }

  lemma TakeByte(v: nat, p: nat)
    requires p > 0
    ensures v % (0x100 * p) == v % p + p * (v / p % 0x100)
  {
    var q, m := Euclid(v, p);
    var top, d := Euclid(q, 0x100);
    assert p * q == 0x100 * p * top + p * d by { assert p * (d + 0x100 * top) == p * d + 0x100 * p * top; }
    MulLe(p, p, d + 1, 0x100);
    MulLe(0, p, 0, d);
    DivModUnique(v, 0x100 * p, top, m + p * d);
  }

  /** The accumulator as four 32-bit words; bits from 128 up are dropped. */
  method PackWords(h: Limbs5) returns (f0: u32, f1: u32, f2: u32, f3: u32)
    requires Carried(h)
    ensures Words(f0, f1, f2, f3) == Number(h) - h.l4 / 0x1000000 * P128
  {
    Pow2Add(16, 10); Pow2Add(16, 4); Pow2Add(8, 6); Pow2Words();
    var x := Shl32(h.l1, A1, 64);
    f0 := OrAbove(h.l0, x, 26, h.l1 % 64);
    x := Shl32(h.l2, 0x100000, 0x1000);
    f1 := OrAbove(h.l1 / 64, x, 20, h.l2 % 0x1000);
    x := Shl32(h.l3, 0x4000, 0x40000);
    f2 := OrAbove(h.l2 / 0x1000, x, 14, h.l3 % 0x40000);
    x := Shl32(h.l4, 0x100, 0x1000000);
    f3 := OrAbove(h.l3 / 0x40000, x, 8, h.l4 % 0x1000000);
    DropHighBits(h, f0, f1, f2, f3);
  }

  lemma DropHighBits(h: Limbs5, f0: u32, f1: u32, f2: u32, f3: u32)
    requires f0 == h.l0 + A1 * (h.l1 % 64) && f1 == h.l1 / 64 + 0x100000 * (h.l2 % 0x1000)
    requires f2 == h.l2 / 0x1000 + 0x4000 * (h.l3 % 0x40000) && f3 == h.l3 / 0x40000 + 0x100 * (h.l4 % 0x1000000)
    ensures Words(f0, f1, f2, f3) == Number(h) - h.l4 / 0x1000000 * P128
  {
    assert h.l1 == h.l1 % 64 + 64 * (h.l1 / 64) && h.l2 == h.l2 % 0x1000 + 0x1000 * (h.l2 / 0x1000);
    assert h.l3 == h.l3 % 0x40000 + 0x40000 * (h.l3 / 0x40000);
    assert h.l4 == h.l4 % 0x1000000 + 0x1000000 * (h.l4 / 0x1000000);
  }

  /** Adding the second key half with carries between words, modulo 2^128. */
  method AddPad(f0: u32, f1: u32, f2: u32, f3: u32, key: seq<byte>) returns (out: seq<byte>, ghost carry: nat)
    requires |key| == 32
    ensures |out| == 16 && 0 <= Value(out) < P128
    ensures Value(out) == Words(f0, f1, f2, f3) + Value(key[16..]) - carry * P128
  {
    var s0 := Load32(key, 16);
    var s1 := Load32(key, 20);
    var s2 := Load32(key, 24);
    var s3 := Load32(key, 28);
    var g0 := Add64(f0, s0);
    var g1 := Add64(Add64(f1, s1), g0 / B32);
    var g2 := Add64(Add64(f2, s2), g1 / B32);
    var g3 := Add64(Add64(f3, s3), g2 / B32);
    out := StoreBlock(g0, g1, g2, g3);
    SixteenBytes(key[16..]);
    WordCarries(f0, f1, f2, f3, s0, s1, s2, s3, g0, g1, g2, g3);
    carry := g3 / B32;
  }

  method StoreBlock(g0: u64, g1: u64, g2: u64, g3: u64) returns (out: seq<byte>)
    ensures |out| == 16 && Value(out) == Words(g0 % B32, g1 % B32, g2 % B32, g3 % B32)
  {
    var o0 := Store32(g0);
    var o1 := Store32(g1);
    var o2 := Store32(g2);
    var o3 := Store32(g3);
    out := o0 + o1 + o2 + o3;
    assert Word(out, 0) == Word(o0, 0) && Word(out, 4) == Word(o1, 0);
    assert Word(out, 8) == Word(o2, 0) && Word(out, 12) == Word(o3, 0);
    SixteenBytes(out);
  }

  lemma WordCarries(f0: u32, f1: u32, f2: u32, f3: u32, s0: u32, s1: u32, s2: u32, s3: u32,
                    g0: nat, g1: nat, g2: nat, g3: nat)
    requires g0 == f0 + s0 && g1 == f1 + s1 + g0 / B32 && g2 == f2 + s2 + g1 / B32 && g3 == f3 + s3 + g2 / B32
    ensures 0 <= Words(g0 % B32, g1 % B32, g2 % B32, g3 % B32) < P128
    ensures Words(g0 % B32, g1 % B32, g2 % B32, g3 % B32)
         == Words(f0, f1, f2, f3) + Words(s0, s1, s2, s3) - g3 / B32 * P128
  {
  }

  /** poly1305_auth. */
  method Auth(m: seq<byte>, key: seq<byte>) returns (out: seq<byte>)
    requires |key| == 32
    ensures |out| == 16 && Value(out) == Tag(m, key)
  {
    var r := ClampKey(key);
    var h := Evaluate(m, r);
    out := Finish(h, key, Number(h));
  }

  /** The accumulator plus the second key half, modulo 2^128. */
  method Finish(h: Limbs5, key: seq<byte>, ghost sum: int) returns (out: seq<byte>)
    requires |key| == 32 && Carried(h) && sum == Number(h)
    ensures |out| == 16 && Value(out) == (sum + Value(key[16..])) % P128
  {
    var f0, f1, f2, f3 := PackWords(h);
    ghost var carry;
    out, carry := AddPad(f0, f1, f2, f3, key);
    DivModUnique(sum + Value(key[16..]), P128, h.l4 / 0x1000000 + carry, Value(out));
  }

  /** The polynomial at r, fully reduced. */
  method Evaluate(m: seq<byte>, r: Limbs5) returns (h: Limbs5)
    requires Clamped(r)
    ensures Carried(h) && Number(h) == PowerSum(Coefficients(m), Number(r)) % PRIME
  {
    var a := Accumulate(m, r);
    AccumulatedSum(m, Number(r), Number(a));
    var b := FinalCarry(a);
    h := Canonical(b);
  }

  lemma AccumulatedSum(m: seq<byte>, r: int, h: int)
    requires h % PRIME == Horner(m, r, 0) % PRIME
    ensures h % PRIME == PowerSum(Coefficients(m), r) % PRIME
  {
    HornerIsPowerSum(m, r, 0);
    assert 0 * Pow(r, |Coefficients(m)|) == 0;
  }
}
