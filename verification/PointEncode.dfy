/** ge25519_pack (ed25519/ge25519.c): compressing a point to 32 bytes. */
module PointEncode {
  import opened Bits
  import opened Limbs
  import opened Field
  import opened Fe25519
  import opened FeCompare
  import opened FeChains
  import opened SquareRoot
  import opened Edwards
  import opened Formulas
  import opened Ge25519

  /** Section 5.1.2 of RFC 8032: y, and the low bit of x above it. */
  function Encoding(p: Point): int {
    p.y + p.x % 2 * P255
  }

  lemma InvertExponent()
    ensures ExponentInvert() == Q - 2
  {
    PowersOfTwo();
    Pow2Add(128, 127);
    assert Pow2(128) == 2 * Pow2(127);
  }

  /** The power that fe25519_invert computes is the inverse. */
  lemma InverseOf(z: int, zi: int)
    requires Fermat(z) && ExponentInvert() >= 0 && IsPower(zi, z, ExponentInvert())
    ensures Cong(z * zi, 1)
  {
    InvertExponent();
    CongMul(z, z, zi, Pow(z, ExponentInvert()));
    assert Pow(z, Q - 1) == z * Pow(z, Q - 2);
  }

  /** Dividing out z. */
  lemma Divided(X: int, x: int, z: int, zi: int, t: int)
    requires Cong(X, x * z) && Cong(z * zi, 1) && Cong(t, X * zi)
    ensures Cong(t, x)
  {
    CongMul(X, x * z, zi, zi);
    CongMul(x, x, z * zi, 1);
    assert (x * z) * zi == x * (z * zi);
  }

  /** `r[31] ^= parity << 7`. */
  method FlipTop(b: byte, par: nat) returns (r: byte)
    requires par <= 1
    ensures r == b % 128 + (if b / 128 == par then 0 else 128)
  {
    ghost var h, l := b / 128, b % 128;
    Pow2Add(4, 3);
    assert Pow2(7) == 128;
    XorSplit(l, h, 0, par, 7);
    ShlIsMul(h, 7); ShlIsMul(par, 7); ShlIsMul(Xor(h, par), 7);
    assert Xor(l, 0) == l && Xor(h, par) == (if h == par then 0 else 1);
    r := Xor(b, par * 128);
  }

  /** What ge25519_pack is given and computes on the way: 1/z, and the affine coordinates. */
  datatype Products = Products(c: P3, zi: Fe, x: Fe, y: Fe)

  ghost predicate IsProducts(t: Products, p: Point) {
    && Rep3(t.c, p) && Loose(t.zi) && Loose(t.x) && Loose(t.y)
    && Cong(Value(t.c.z) * Value(t.zi), 1) && Cong(Value(t.x), p.x) && Cong(Value(t.y), p.y)
    && LeastProduct(t.c.x, t.zi, 3) <= Value(t.x) < P255 + EXCESS
    && LeastProduct(t.c.y, t.zi, 3) <= Value(t.y) < P255 + EXCESS
  }

  /** Neither coordinate has limb 31 at 128. */
  ghost predicate Fits(t: Products) {
    Below(t.x) && Below(t.y)
  }

  /** The bytes that ge25519_pack makes of p: its canonical encoding exactly if the affine coordinates
      come out below 2^255. */
  ghost predicate PackedAs(r: seq<byte>, p: Point, t: Products) {
    |r| == 32 && IsProducts(t, p) && (Value(r) == Encoding(p) <==> Fits(t))
  }

  /** ge25519_pack. */
  method Pack(c: P3, ghost p: Point) returns (r: seq<byte>, ghost t: Products)
    requires Rep3(c, p) && Fermat(Value(c.z))
    ensures PackedAs(r, p, t) && t.c == c
  {
    var x, y;
    x, y, t := AffineProducts(c, p);
    var bytes := FeCompare.Pack(y);
    var par := GetParity(x);
    var top := FlipTop(bytes[31], par);
    r := bytes[31 := top];
    FlippedValue(bytes, r, Value(y), par);
    LooseBound(x);
    LooseBound(y);
    CanonicalIs(p.x);
    CanonicalIs(p.y);
    CanonicalExactly(Value(x), Value(y), p.x, p.y, par, Value(r));
  }

  method AffineProducts(c: P3, ghost p: Point) returns (tx: Fe, ty: Fe, ghost t: Products)
    requires Rep3(c, p) && Fermat(Value(c.z))
    ensures IsProducts(t, p) && t.c == c && t.x == tx && t.y == ty
  {
    var zi := Invert(c.z);
    tx := Mul(c.x, zi);
    ty := Mul(c.y, zi);
    InverseOf(Value(c.z), Value(zi));
    Divided(Value(c.x), p.x, Value(c.z), Value(zi), Value(tx));
    Divided(Value(c.y), p.y, Value(c.z), Value(zi), Value(ty));
    t := Products(c, zi, tx, ty);
  }

  /** Points whose affine coordinates always come out below 2^255. */
  predicate Plain(p: Point) {
    !Wraps(p.x) && !Wraps(p.y)
  }

  /** Every representation of a plain point is packed canonically. */
  lemma PlainFits(t: Products, p: Point)
    requires IsProducts(t, p) && Plain(p)
    ensures Fits(t)
  {
    CanonicalIs(p.x);
    CanonicalIs(p.y);
    ProductBelow(t.x, p.x);
    ProductBelow(t.y, p.y);
  }

  /** A point with 19 <= y < 342, represented with z = -1, is packed to something other than its
      encoding. */
  method PackFails(x: Fe, y: Fe, ghost p: Point) returns (c: P3, r: seq<byte>)
    requires Loose(x) && Loose(y) && Cong(Value(x), p.x) && Cong(Value(y), p.y) && 19 <= p.y < 342
    ensures Rep3(c, p) && |r| == 32 && Value(r) != Encoding(p)
  {
    c := OverMinusOne(x, y, p);
    FermatOfMinusOne(Value(c.z));
    ghost var t;
    r, t := Pack(c, p);
    MinusOneIsOwnInverse(Value(c.z), Value(t.zi));
    TopOfMinusOne(t.zi);
    LeastProductIs(c.y, t.zi);
    ProductWraps(t.y, p.y);
  }

  /** The coordinates (-x, -y, -1, -xy). */
  method OverMinusOne(x: Fe, y: Fe, ghost p: Point) returns (c: P3)
    requires Loose(x) && Loose(y) && Cong(Value(x), p.x) && Cong(Value(y), p.y) && 19 <= p.y < 342
    ensures Rep3(c, p) && Cong(Value(c.z), -1) && c.y[31] == 127
  {
    var one := Small(1);
    var z := Neg(one);
    var nx := Neg(x);
    var ny := Neg(y);
    var t := Mul(nx, y);
    c := P3(nx, ny, z, t);
    CongAdd(0, 0, Value(x), p.x);
    CongAdd(0, 0, Value(y), p.y);
    TopOfNegated(ny, p.y);
    NegatedExtended(Value(nx), Value(ny), Value(z), Value(t), Value(y), p);
  }

  lemma NegatedExtended(X: int, Y: int, Z: int, T: int, y: int, p: Point)
    requires Cong(X, -p.x) && Cong(Y, -p.y) && Cong(Z, -1) && Cong(T, X * y) && Cong(y, p.y)
    ensures Extended(X, Y, Z, T, p)
  {
    CongMul(Z, -1, -1, -1);
    assert Z * -1 == -Z && IsInverse(Z, -1);
    CongMul(p.x, p.x, Z, -1);
    CongMul(p.y, p.y, Z, -1);
    CongMul(X, -p.x, y, p.y);
    CongMul(p.x * p.y, p.x * p.y, Z, -1);
    assert -p.x * p.y == (p.x * p.y) * -1;
  }

  lemma {:induction false} PowMinusOne(e: nat)
    ensures Pow(-1, 2 * e) == 1
  {
    if e > 0 {
      PowMinusOne(e - 1);
      assert Pow(-1, 2 * e - 1) == -1 * Pow(-1, 2 * e - 2);
    }
  }

  lemma FermatOfMinusOne(z: int)
    requires Cong(z, -1)
    ensures Fermat(z)
  {
    PowCong(z, -1, Q - 1);
    PowMinusOne((Q - 1) / 2);
  }

  lemma MinusOneIsOwnInverse(z: int, zi: int)
    requires Cong(z, -1) && Cong(z * zi, 1)
    ensures Cong(zi, -1)
  {
    CongMul(z, -1, zi, zi);
    assert -1 * zi == -zi;
    CongAdd(0, 0, -zi, 1);
  }

  lemma TopOfMinusOne(x: Fe)
    requires Loose(x) && Cong(Value(x), -1)
    ensures x[31] == 127
  {
    CongShift(Q - 1, -1, 1);
    PLiterals();
    TopOfResidue(x, Q - 1, 127);
  }

  /** The point with y = 19 and x even. */
  function Nineteen(): Point {
    CanonicalIs(NINETEEN_X); CanonicalIs(19);
    Affine(NINETEEN_X, 19)
  }

  const NINETEEN_X: nat := 40727399675277404922029936734843492870553645827403842083006853915149166269160

  const NINETEEN_MULTIPLE: int :=
    0x1c9d80f947ef7bf9b5736b0fbb150a50f12b8a8c0061dd12465b53f118187cdc195e51088d2fb151acd18f1f89a63721cad46152516253240873b431554a9d80f8

  lemma NineteenOnCurve()
    ensures OnCurve(Nineteen())
  {
    var x: int := NINETEEN_X;
    CurveIs(x, 19);
    CongShift(361 - x * x, 1 + D * ((x * 19) * (x * 19)), -NINETEEN_MULTIPLE);
  }

  /** A curve point that ge25519_pack encodes wrongly. */
  method PackFailsAtNineteen() returns (c: P3, r: seq<byte>)
    ensures OnCurve(Nineteen()) && Rep3(c, Nineteen()) && |r| == 32 && Value(r) != Encoding(Nineteen())
  {
    NineteenOnCurve();
    PLiterals();
    DigitsValue(NINETEEN_X, 32);
    var x: Fe := Digits(NINETEEN_X, 32);
    LooseIfSmall(x);
    var y := Small(19);
    c, r := PackFails(x, y, Nineteen());
  }

  /** The number with its bit 255 flipped by the parity. */
  lemma FlippedValue(b: seq<byte>, r: seq<byte>, y: int, par: nat)
    requires |b| == 32 && par <= 1 && Value(b) == Frozen(y)
    requires r == b[31 := b[31] % 128 + (if b[31] / 128 == par then 0 else 128)]
    ensures Value(r) == Frozen(y) % P255 + (if Frozen(y) / P255 == par then 0 else P255)
  {
    var top: int, top': int := b[31], r[31];
    VUpdate(b, r, 31, 32);
    VBound(b, 31);
    var p := P(31);
    assert V(b, 32) == V(b, 31) + top * p && Value(r) == Value(b) + (top' - top) * p;
    FlippedNumber(V(b, 31), top, top', Value(b), Value(r), par, p);
  }

  lemma FlippedNumber(low: int, top: int, top': int, v: int, r: int, par: int, p: int)
    requires p == P(31) && 0 <= low < p && 0 <= top < 256 && v == low + top * p && r == v + (top' - top) * p
    requires top' == top % 128 + (if top / 128 == par then 0 else 128)
    ensures r == v % P255 + (if v / P255 == par then 0 else P255)
  {
    TopOfNumber(low, top, v, p);
    PLiterals();
    assert r == low + top' * p;
  }

  lemma CanonicalExactly(tx: int, ty: int, x: int, y: int, par: nat, r: int)
    requires 0 <= x < Q && 0 <= y < Q && Cong(tx, x) && Cong(ty, y) && 0 <= tx < 129 * P(31) && 0 <= ty < 129 * P(31)
    requires par == Frozen(tx) % 2 && r == Frozen(ty) % P255 + (if Frozen(ty) / P255 == par then 0 else P255)
    ensures r == y + x % 2 * P255 <==> tx < P255 && ty < P255
  {
    FrozenOf(tx, x);
    FrozenOf(ty, y);
    ParityOf(Frozen(tx), x, tx < P255);
    if ty < P255 {
      DivModUnique(Frozen(ty), P255, 0, y);
      assert r == y + (if par == 0 then 0 else P255);
    } else {
      DivModUnique(Frozen(ty), P255, 1, y - 19);
      assert r == y - 19 || r == y - 19 + P255;
    }
  }
}
