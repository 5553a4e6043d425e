/** Key generation, signing and opening (ed25519/ed25519.c), over the scalar and point arithmetic of
    the other modules.  The hash and the constants of the base point are parameters. */
module Ed25519 {
  import opened Bits
  import opened Buffers
  import opened Limbs
  import opened Field
  import opened Fe25519
  import opened SquareRoot
  import opened Edwards
  import opened Multiples
  import opened Ge25519
  import opened Sc25519
  import opened ScalarOps
  import opened BaseMult
  import opened DoubleScalarMult
  import opened PointEncode
  import opened PointDecode

  /** What the signature code uses: SHA-512 and the constants ge25519_base_multiples_affine and
      ge25519_base. */
  datatype Suite = Suite(hash: seq<byte> -> seq<byte>, table: seq<Aff>, base: P3)

  /** The mathematical side: the group and the base point. */
  datatype Curve = Curve(g: Group, b: Point)

  ghost predicate Hashes(u: Suite) {
    forall x {:trigger u.hash(x)} :: |u.hash(x)| == 64
  }

  /** The base point has order dividing m, and the constants describe it. */
  ghost predicate BaseOf(u: Suite, c: Curve) {
    && c.g.EdwardsGroup() && OnCurve(c.b) && Scale(c.g, M, c.b) == c.g.zero
    && BaseTable(u.table, c.g, c.b) && Rep3(u.base, c.b)
  }

  ghost predicate Sound(u: Suite, c: Curve) {
    Hashes(u) && BaseOf(u, c) && FermatHolds()
  }

  lemma {:induction false} OrderMultiples(g: Group, m: nat, p: Point, k: nat)
    requires g.EdwardsGroup() && OnCurve(p) && Scale(g, m, p) == g.zero
    ensures Scale(g, k * m, p) == g.zero
  {
    if k > 0 {
      OrderMultiples(g, m, p, k - 1);
      ScaleAdd(g, (k - 1) * m, m, p);
      assert (k - 1) * m + m == k * m;
      ZeroOnCurve();
      Neutral(g, g.zero);
    }
  }

  /** Scalars matter only modulo the order. */
  lemma ScaleMod(c: Curve, n: int, r: int, k: nat)
    requires c.g.EdwardsGroup() && OnCurve(c.b) && Scale(c.g, M, c.b) == c.g.zero && n == r + k * M
    ensures Scale(c.g, n, c.b) == Scale(c.g, r, c.b)
  {
    OrderMultiples(c.g, M, c.b, k);
    ScaleAdd(c.g, r, k * M, c.b);
    ScaleOnCurve(c.g, r, c.b);
    Neutral(c.g, Scale(c.g, r, c.b));
  }

  lemma {:induction false} ScaleScale(g: Group, h: nat, n: int, p: Point)
    requires g.EdwardsGroup() && OnCurve(p)
    ensures Scale(g, h, Scale(g, n, p)) == Scale(g, h * n, p)
  {
    if h > 0 {
      ScaleScale(g, h - 1, n, p);
      ScaleAdd(g, (h - 1) * n, n, p);
      assert (h - 1) * n + n == h * n;
    }
  }

  /** h (-A) + s B = k B, for A = a B and s = h a + k modulo the order. */
  lemma VerifyEquation(c: Curve, a: int, h: nat, k: int, s: int, j: nat)
    requires c.g.EdwardsGroup() && OnCurve(c.b) && Scale(c.g, M, c.b) == c.g.zero
    requires h * a + k == s + j * M
    ensures Combine(c.g, h, c.g.Neg(Scale(c.g, a, c.b)), s, c.b) == Scale(c.g, k, c.b)
  {
    NegIsScale(c.g, a, c.b);
    ScaleScale(c.g, h, -a, c.b);
    assert h * -a == -(h * a);
    ScaleAdd(c.g, -(h * a), s, c.b);
    ScaleMod(c, k, s - h * a, j);
  }

  /** The secret half of the expanded key: low three bits and top bit clear, bit 254 set. */
  function Clamp(e: seq<byte>): seq<byte>
    requires |e| == 64
  {
    e[0 := e[0] - e[0] % 8][31 := 64 + e[31] % 64]
  }

  /** `extsk[0] &= 248; extsk[31] &= 127; extsk[31] |= 64`. */
  method ClampExtended(e: seq<byte>) returns (r: seq<byte>)
    requires |e| == 64
    ensures r == Clamp(e)
  {
    var low := ClearLowBits(e[0]);
    var high := SetTopBits(e[31]);
    r := e[0 := low][31 := high];
  }

  method ClearLowBits(x: byte) returns (r: byte)
    ensures r == x - x % 8
  {
    ghost var h := x / 8;
    assert Pow2(3) == 8 && Pow2(5) == 32;
    AndOnes(h, 5);
    AndSplit(x % 8, h, 0, 31, 3);
    ShlIsMul(h, 3); ShlIsMul(31, 3); ShlIsMul(And(h, 31), 3);
    r := And(x, 248);
  }

  method SetTopBits(x: byte) returns (r: byte)
    ensures r == 64 + x % 64
  {
    assert Pow2(6) == 64 && Pow2(7) == 128;
    var high := Mask(x, 7, 128);
    r := SetBit(high, 6, 64);
  }

  /** Section 5.1.5 of RFC 8032: the secret scalar is a multiple of 8 in [2^254, 2^255). */
  lemma ClampedScalar(e: seq<byte>)
    requires |e| == 64
    ensures Value(Clamp(e)[..32]) % 8 == 0 && P255 / 2 <= Value(Clamp(e)[..32]) < P255
  {
    var c := Clamp(e)[..32];
    LowLimbDecides(c);
    VBound(c, 31);
    TopLimbDecides(V(c, 31), c[31], P(31));
  }

  lemma LowLimbDecides(c: seq<int>)
    requires |c| == 32 && c[0] % 8 == 0
    ensures Value(c) % 8 == 0
  {
    VSplit(c, 1, 32);
    assert V(c, 1) == c[0] && P(1) == 256;
    MultipleOfEight(c[0], V(c[1..], 31), Value(c));
  }

  lemma MultipleOfEight(low: int, rest: int, v: int)
    requires low % 8 == 0 && v == low + 256 * rest
    ensures v % 8 == 0
  {
    DivModUnique(v, 8, low / 8 + 32 * rest, 0);
  }

  lemma TopLimbDecides(low: int, top: int, p: int)
    requires 0 <= low < p && 64 <= top < 128 && p == P(31)
    ensures P255 / 2 <= low + top * p < P255
  {
    PLiterals();
  }

  /** The secret scalar a, from the seed in the first half of the secret key. */
  ghost function SecretScalar(u: Suite, seed: seq<byte>): nat
    requires Hashes(u)
  {
    Value(Clamp(u.hash(seed))[..32]) % M
  }

  /** The secret scalar k of a signature, from the upper half of the expanded key and the message. */
  ghost function Nonce(u: Suite, seed: seq<byte>, m: seq<byte>): nat
    requires Hashes(u)
  {
    Value(u.hash(Clamp(u.hash(seed))[32..] + m)) % M
  }

  /** A = a B. */
  ghost function KeyPoint(u: Suite, c: Curve, seed: seq<byte>): Point
    requires Hashes(u)
  {
    Scale(c.g, SecretScalar(u, seed), c.b)
  }

  /** R = k B. */
  ghost function NoncePoint(u: Suite, c: Curve, seed: seq<byte>, m: seq<byte>): Point
    requires Hashes(u)
  {
    Scale(c.g, Nonce(u, seed, m), c.b)
  }

  /** Coordinates of a point have an invertible z. */
  lemma FermatOfZ(r: P3, p: Point)
    requires FermatHolds() && Rep3(r, p)
    ensures Fermat(Value(r.z))
  {
    UnitNotZero(Value(r.z));
  }

  /** crypto_sign_ed25519_keypair, for a given random seed. */
  method Keypair(u: Suite, seed: seq<byte>, ghost c: Curve) returns (pk: seq<byte>, sk: seq<byte>, ghost t: Products)
    requires Sound(u, c) && |seed| == 32
    ensures sk == seed + pk && PackedAs(pk, KeyPoint(u, c, seed), t)
  {
    var ext := ClampExtended(u.hash(seed));
    var a := From32Bytes(ext[..32]);
    pk, t := PackedMultiple(u, a[..], c);
    sk := seed + pk;
  }

  /** A packed multiple of the base point. */
  method PackedMultiple(u: Suite, k: seq<u32>, ghost c: Curve) returns (r: seq<byte>, ghost t: Products)
    requires BaseOf(u, c) && FermatHolds() && |k| == 32 && AllBytes(k) && Value(k) < M
    ensures PackedAs(r, Scale(c.g, Value(k), c.b), t)
  {
    var ge := ScalarMultBase(u.table, k, c.g, c.b);
    ghost var p := Scale(c.g, Value(k), c.b);
    FermatOfZ(ge, p);
    r, t := PointEncode.Pack(ge, p);
  }

  /** get_hram; playground may be sm itself, as in signing. */
  method GetHram(u: Suite, sm: array<byte>, pk: seq<byte>, playground: array<byte>, smlen: nat) returns (hram: seq<byte>)
    requires |pk| == 32 && 64 <= smlen <= sm.Length && smlen <= playground.Length
    modifies playground
    ensures playground[..smlen] == old(sm[..32]) + pk + old(sm[64..smlen])
    ensures playground[smlen..] == old(playground[smlen..])
    ensures hram == u.hash(playground[..smlen])
  {
    ghost var s := sm[..];
    for i := 0 to 32
      invariant forall k :: 0 <= k < i ==> playground[k] == s[k]
      invariant forall k :: 0 <= k < sm.Length ==> sm[k] == s[k]
      invariant playground[smlen..] == old(playground[smlen..])
    {
      playground[i] := sm[i];
    }
    for i := 32 to 64
      invariant forall k :: 0 <= k < 32 ==> playground[k] == s[k]
      invariant forall k :: 32 <= k < i ==> playground[k] == pk[k - 32]
      invariant forall k :: 64 <= k < sm.Length ==> sm[k] == s[k]
      invariant playground[smlen..] == old(playground[smlen..])
    {
      playground[i] := pk[i - 32];
    }
    for i := 64 to smlen
      invariant forall k :: 0 <= k < 32 ==> playground[k] == s[k]
      invariant forall k :: 32 <= k < 64 ==> playground[k] == pk[k - 32]
      invariant forall k :: 64 <= k < i ==> playground[k] == s[k]
      invariant forall k :: 64 <= k < sm.Length ==> sm[k] == s[k]
      invariant playground[smlen..] == old(playground[smlen..])
    {
      playground[i] := sm[i];
    }
    Assembled(playground[..smlen], s, pk);
    hram := u.hash(playground[..smlen]);
  }

  lemma Assembled(p: seq<byte>, s: seq<byte>, pk: seq<byte>)
    requires 64 <= |p| <= |s| && |pk| == 32
    requires (forall k :: 0 <= k < 32 ==> p[k] == s[k]) && (forall k :: 32 <= k < 64 ==> p[k] == pk[k - 32])
    requires forall k :: 64 <= k < |p| ==> p[k] == s[k]
    ensures p == s[..32] + pk + s[64..|p|]
  {
  }

  /** The challenge H(R, A, M) as a scalar. */
  ghost function Challenge(u: Suite, r: seq<byte>, pk: seq<byte>, m: seq<byte>): nat
    requires Hashes(u)
  {
    VBoundOf(u.hash(r + pk + m));
    Value(u.hash(r + pk + m)) % M
  }

  lemma VBoundOf(s: seq<byte>)
    ensures Value(s) >= 0
  {
    VBound(s, |s|);
  }

  /** s = h a + k modulo the order. */
  function Response(h: nat, a: nat, k: nat): int {
    (h * a + k) % M
  }

  /** A signed message: R = k B packed, s = h a + k modulo the order, and the text. */
  ghost predicate Signed(u: Suite, c: Curve, sm: seq<byte>, m: seq<byte>, sk: seq<byte>, t: Products)
    requires Hashes(u) && |sk| == 64
  {
    && |sm| == |m| + 64 && sm[64..] == m
    && PackedAs(sm[..32], NoncePoint(u, c, sk[..32], m), t)
    && Value(sm[32..64])
       == Response(Challenge(u, sm[..32], sk[32..], m), SecretScalar(u, sk[..32]), Nonce(u, sk[..32], m))
  }

  /** crypto_sign_ed25519: sm also serves as the buffer hashed for the nonce and the challenge. */
  method Sign(u: Suite, sm: array<byte>, m: seq<byte>, sk: seq<byte>, ghost c: Curve) returns (ghost t: Products)
    requires Sound(u, c) && |sk| == 64 && sm.Length == |m| + 64
    modifies sm
    ensures Signed(u, c, sm[..], m, sk, t)
  {
    var ext := ClampExtended(u.hash(sk[..32]));
    var hmg := NonceHash(u, sm, m, ext);
    var sck := From64Bytes(hmg);
    var r;
    r, t := PackedMultiple(u, sck[..], c);
    ghost var s := FinishSignature(u, sm, m, sk, ext, r, sck, Nonce(u, sk[..32], m));
    PartsAreSigned(u, c, sm[..], m, sk, r, s, t);
  }

  lemma PartsAreSigned(u: Suite, c: Curve, sm: seq<byte>, m: seq<byte>, sk: seq<byte>, r: seq<byte>, s: seq<byte>, t: Products)
    requires Hashes(u) && |sk| == 64 && |r| == |s| == 32 && sm == r + s + m
    requires PackedAs(r, NoncePoint(u, c, sk[..32], m), t)
    requires Value(s) == Response(Challenge(u, r, sk[32..], m), SecretScalar(u, sk[..32]), Nonce(u, sk[..32], m))
    ensures Signed(u, c, sm, m, sk, t)
  {
    assert sm[..32] == r && sm[32..64] == s && sm[64..] == m;
  }

  /** From R to the finished message: sm is R, A, M for the hash, then R, s, M. */
  method FinishSignature(u: Suite, sm: array<byte>, m: seq<byte>, sk: seq<byte>, ext: seq<byte>, r: seq<byte>,
                         sck: array<u32>, ghost k: nat) returns (ghost s: seq<byte>)
    requires Hashes(u) && |sk| == 64 && sm.Length == |m| + 64 && sm[64..] == m && |r| == 32
    requires |ext| == 64 && ext == Clamp(u.hash(sk[..32]))
    requires sck.Length == 32 && AllBytes(sck[..]) && Value(sck[..]) == k < M
    modifies sm
    ensures |s| == 32 && sm[..] == r + s + m
    ensures Value(s) == Response(Challenge(u, r, sk[32..], m), SecretScalar(u, sk[..32]), k)
  {
    Put(sm, 0, r);
    assert sm[64..] == m && sm[..32] == r;
    var hram := GetHram(u, sm, sk[32..], sm, sm.Length);
    assert sm[..sm.Length] == r + sk[32..] + m;
    var t := ComputeResponse(hram, ext, sck);
    assert sm[..32] == r && sm[64..] == m;
    Put(sm, 32, t);
    s := t;
    assert sm[..] == sm[..32] + sm[32..64] + sm[64..];
  }

  /** sm[64..] = m, sm[32..64] = the upper half of extsk, and their hash. */
  method NonceHash(u: Suite, sm: array<byte>, m: seq<byte>, ext: seq<byte>) returns (hmg: seq<byte>)
    requires Hashes(u) && |ext| == 64 && sm.Length == |m| + 64
    modifies sm
    ensures sm[64..] == m && hmg == u.hash(ext[32..] + m) && |hmg| == 64
  {
    Put(sm, 64, m);
    assert sm[64..] == m;
    Put(sm, 32, ext[32..]);
    assert sm[32..] == ext[32..] + m;
    hmg := u.hash(sm[32..]);
  }

  /** s = hram a + k modulo the order, as 32 bytes. */
  method ComputeResponse(hram: seq<byte>, ext: seq<byte>, sck: array<u32>) returns (s: seq<byte>)
    requires |hram| == 64 && |ext| == 64 && sck.Length == 32 && AllBytes(sck[..]) && Value(sck[..]) < M
    ensures |s| == 32
    ensures Value(s) == (Value(hram) % M * (Value(ext[..32]) % M) + Value(sck[..])) % M
  {
    var scs := From64Bytes(hram);
    var scsk := From32Bytes(ext[..32]);
    ghost var k, h, a := Value(sck[..]), Value(scs[..]), Value(scsk[..]);
    ScalarOps.Mul(scs, scs, scsk);
    ScalarOps.Add(scs, scs, sck);
    s := seq(32, i requires 0 <= i < 32 && scs.Length == 32 && AllBytes(scs[..]) reads scs => scs[..][i]);
    assert s == scs[..];
    ModOfModSum(h * a, k);
  }

  lemma ModOfModSum(x: int, k: int)
    ensures (x % M + k) % M == (x + k) % M
  {
  }

  /** crypto_verify_32: 0 for equal strings, -1 otherwise. */
  method Verify32(x: seq<byte>, y: seq<byte>) returns (ret: int)
    requires |x| == |y| == 32
    ensures ret == if x == y then 0 else -1
  {
    var d: nat := 0;
    for i := 0 to 32
      invariant d < 256 && (d == 0 <==> forall k :: 0 <= k < i ==> x[k] == y[k])
    {
      var e := XorBytes(x[i], y[i]);
      d := OrBytes(d, e);
    }
    ret := DifferenceFlag(d);
  }

  /** `(1 & ((differentbits - 1) >> 8)) - 1`. */
  method DifferenceFlag(d: nat) returns (ret: int)
    requires d < 256
    ensures ret == if d == 0 then 0 else -1
  {
    assert Pow2(1) == 2;
    var flag: int := Mask(Sub32(d, 1) / 256, 1, 2);
    ret := flag - 1;
  }

  method XorBytes(a: byte, b: byte) returns (r: nat)
    ensures r < 256 && (r == 0 <==> a == b)
  {
    Pow2Words();
    XorBound(a, b, 8);
    XorZero(a, b);
    r := Xor(a, b);
  }

  method OrBytes(a: nat, b: nat) returns (r: nat)
    requires a < 256 && b < 256
    ensures r < 256 && (r == 0 <==> a == 0 && b == 0)
  {
    Pow2Words();
    OrBound(a, b, 8);
    OrAtLeast(a, b);
    r := Or(a, b);
  }

  /** How far opening gets: a message shorter than a signature, a public key that does not decode, or R
      compared with the packed point t2 = h (-A) + s B, where a is -A. */
  datatype Opening = TooShort | Undecoded(tr: Trace) | Compared(tr: Trace, a: Point, t2: seq<byte>, t: Products)

  ghost predicate Decodes(o: Opening, c: Curve, pk: seq<byte>, key: Point)
    requires !o.TooShort?
  {
    DecodesTo(o.Compared?, o.tr, if o.Compared? then o.a else c.b, c, pk, key)
  }

  /** The public key decodes as ge25519_unpackneg_vartime decides; the canonical encoding of a point
      does exactly if the checks are clean, and to its negative exactly if the root is below 2^255. */
  ghost predicate DecodesTo(ok: bool, tr: Trace, a: Point, c: Curve, pk: seq<byte>, key: Point) {
    && IsTrace(tr, Value(pk) % P255)
    && (ok <==> Cong(Value(tr.chk2), Value(tr.num)) && Below(tr.chk2))
    && (ok ==> OnCurve(a))
    && (OnCurve(key) && Value(pk) == Encoding(key) ==>
          (ok <==> Clean(tr)) && (ok ==> (a == c.g.Neg(key) <==> Below(tr.root))))
  }

  /** The point to be packed: h (-A) + s B. */
  ghost function Recomputed(u: Suite, c: Curve, sm: seq<byte>, pk: seq<byte>, a: Point): Point
    requires Hashes(u) && |sm| >= 64
  {
    Combine(c.g, Challenge(u, sm[..32], pk, sm[64..]), a, Value(sm[32..64]) % M, c.b)
  }

  /** crypto_sign_ed25519_open.  The message length fits in 32 bits, the width of its copy counter.
      The buffer m receives R, A, M for the hash before it receives the message. */
  method Open(u: Suite, m: array<byte>, sm: array<byte>, pk: seq<byte>, ghost c: Curve, ghost key: Point)
    returns (ret: int, mlen: int, ghost o: Opening)
    requires Sound(u, c) && |pk| == 32 && m != sm && sm.Length <= m.Length && sm.Length < B32 + 64
    modifies m
    ensures o.TooShort? <==> sm.Length < 64
    ensures !o.TooShort? ==> Decodes(o, c, pk, key)
    ensures o.Compared? ==> PackedAs(o.t2, Recomputed(u, c, sm[..], pk, o.a), o.t)
    ensures ret == 0 <==> o.Compared? && sm[..32] == o.t2
    ensures ret == 0 ==> mlen == sm.Length - 64 && m[..mlen] == sm[64..]
    ensures ret != 0 ==> ret == -1 && mlen == B64 - 1
    ensures o.Compared? && ret != 0 ==> forall k :: 0 <= k < sm.Length - 64 ==> m[k] == 0
  {
    mlen := B64 - 1;
    if sm.Length < 64 {
      return -1, mlen, TooShort;
    }
    var ok, get1;
    ghost var tr, a;
    ok, get1, tr, a := DecodeKey(pk, c, key);
    if !ok {
      return -1, mlen, Undecoded(tr);
    }
    ghost var t2, t;
    ret, t2, t := OpenDecoded(u, m, sm, pk, get1, c, a);
    o := Compared(tr, a, t2, t);
    if ret == 0 {
      mlen := sm.Length - 64;
    }
  }

  /** ge25519_unpackneg_vartime, with the point it decodes. */
  method DecodeKey(pk: seq<byte>, ghost c: Curve, ghost key: Point) returns (ok: bool, get1: P3, ghost tr: Trace, ghost a: Point)
    requires FermatHolds() && |pk| == 32
    ensures DecodesTo(ok, tr, a, c, pk, key)
    ensures if ok then Rep3(get1, a) && OnCurve(a) else a == c.b
  {
    ok, get1, tr := UnpackNegVartime(pk, c.g, key);
    a := c.b;
    if ok {
      assert Decoded(get1);
      a :| Rep3(get1, a) && OnCurve(a);
      if Rep3(get1, c.g.Neg(key)) {
        RepUnique(get1, a, c.g.Neg(key));
      }
    }
  }

  /** Coordinates stand for one point only. */
  lemma RepUnique(r: P3, p: Point, q: Point)
    requires Rep3(r, p) && Rep3(r, q)
    ensures p == q
  {
    var z := Value(r.z);
    CanonicalIs(p.x); CanonicalIs(p.y); CanonicalIs(q.x); CanonicalIs(q.y);
    CancelUnit(p.x, q.x, z);
    CancelUnit(p.y, q.y, z);
  }

  lemma CancelUnit(a: int, b: int, z: int)
    requires 0 <= a < Q && 0 <= b < Q && Unit(z) && Cong(a * z, b * z)
    ensures a == b
  {
    var i :| IsInverse(z, i);
    CongMul(a * z, b * z, i, i);
    CongMul(a, a, z * i, 1);
    CongMul(b, b, z * i, 1);
    assert (a * z) * i == a * (z * i) && (b * z) * i == b * (z * i);
    CongIsMod(a, b);
  }

  /** Opening once the public key has been decoded. */
  method OpenDecoded(u: Suite, m: array<byte>, sm: array<byte>, pk: seq<byte>, get1: P3, ghost c: Curve, ghost a: Point)
    returns (ret: int, ghost t2: seq<byte>, ghost t: Products)
    requires Sound(u, c) && Rep3(get1, a) && OnCurve(a)
    requires |pk| == 32 && m != sm && 64 <= sm.Length <= m.Length
    modifies m
    ensures PackedAs(t2, Recomputed(u, c, sm[..], pk, a), t)
    ensures ret == if sm[..32] == t2 then 0 else -1
    ensures ret == 0 ==> m[..sm.Length - 64] == sm[64..]
    ensures ret != 0 ==> forall k :: 0 <= k < sm.Length - 64 ==> m[k] == 0
  {
    ghost var s := sm[..];
    var hram := GetHram(u, sm, pk, m, sm.Length);
    assert m[..sm.Length] == s[..32] + pk + s[64..];
    var packed;
    packed, t := Recompute(u, get1, hram, sm[32..64], c, a);
    t2 := packed;
    ret := Verify32(sm[..32], packed);
    if ret == 0 {
      CopyOut(m, sm);
    } else {
      Clear(m, sm.Length - 64);
    }
    assert sm[..] == s && s[32..64] == sm[32..64];
  }

  /** h (-A) + s B, packed. */
  method Recompute(u: Suite, get1: P3, hram: seq<byte>, sBytes: seq<byte>, ghost c: Curve, ghost a: Point)
    returns (t2: seq<byte>, ghost t: Products)
    requires BaseOf(u, c) && FermatHolds() && Rep3(get1, a) && OnCurve(a) && |hram| == 64 && |sBytes| == 32
    ensures PackedAs(t2, Combine(c.g, Value(hram) % M, a, Value(sBytes) % M, c.b), t)
  {
    var schram := From64Bytes(hram);
    var scs := From32Bytes(sBytes);
    Windows.TopLimbOfReduced(schram[..]);
    Windows.TopLimbOfReduced(scs[..]);
    var get2 := DoubleScalarMultVartime(get1, schram[..], u.base, scs[..], c.g, a, c.b);
    ghost var p := Combine(c.g, Value(schram[..]), a, Value(scs[..]), c.b);
    FermatOfZ(get2, p);
    t2, t := PointEncode.Pack(get2, p);
  }

  method CopyOut(m: array<byte>, sm: array<byte>)
    requires m != sm && 64 <= sm.Length <= m.Length
    modifies m
    ensures m[..sm.Length - 64] == sm[64..]
  {
    for i := 0 to sm.Length - 64
      invariant forall k :: 0 <= k < i ==> m[k] == sm[k + 64]
    {
      m[i] := sm[i + 64];
    }
  }

  method Clear(m: array<byte>, n: nat)
    requires n <= m.Length
    modifies m
    ensures forall k :: 0 <= k < n ==> m[k] == 0
  {
    for i := 0 to n
      invariant forall k :: 0 <= k < i ==> m[k] == 0
    {
      m[i] := 0;
    }
  }
}
