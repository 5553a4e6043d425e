/** Point operations of ed25519/ge25519.c on limb coordinates, each proved to compute the Edwards
    sum of the affine points its operands stand for. */
module Ge25519 {
  import opened Limbs
  import opened Field
  import opened Fe25519
  import opened Edwards
  import opened Formulas

  datatype P1P1 = P1P1(x: Fe, z: Fe, y: Fe, t: Fe)
  datatype P2 = P2(x: Fe, y: Fe, z: Fe)
  datatype P3 = P3(x: Fe, y: Fe, z: Fe, t: Fe)
  datatype Aff = Aff(x: Fe, y: Fe)

  ghost predicate Rep2(c: P2, p: Point) {
    Loose(c.x) && Loose(c.y) && Loose(c.z) && Projective(Value(c.x), Value(c.y), Value(c.z), p)
  }

  ghost predicate Rep3(c: P3, p: Point) {
    && Loose(c.x) && Loose(c.y) && Loose(c.z) && Loose(c.t)
    && Extended(Value(c.x), Value(c.y), Value(c.z), Value(c.t), p)
  }

  /** The coordinates are those of some point on the curve. */
  ghost predicate Decoded(r: P3) {
    exists p :: Rep3(r, p) && OnCurve(p)
  }

  ghost predicate Rep11(c: P1P1, p: Point) {
    && Loose(c.x) && Loose(c.y) && Loose(c.z) && Loose(c.t)
    && Completed(Value(c.x), Value(c.y), Value(c.z), Value(c.t), p)
  }

  ghost predicate RepAff(c: Aff, p: Point) {
    Loose(c.x) && Loose(c.y) && Cong(Value(c.x), p.x) && Cong(Value(c.y), p.y)
  }

  /** ge25519_ec2d: the limbs of 2d. */
  const EC2D: Fe :=
    [0x59, 0xF1, 0xB2, 0x26, 0x94, 0x9B, 0xD6, 0xEB, 0x56, 0xB1, 0x83, 0x82, 0x9A, 0x14, 0xE0, 0x00,
     0x30, 0xD1, 0xF3, 0xEE, 0xF2, 0x80, 0x8E, 0x19, 0xE7, 0xFC, 0xDF, 0x56, 0xDC, 0xD9, 0x06, 0x24]

  lemma EC2DOctet0()
    ensures Octet(EC2D, 0) == 0xebd69b9426b2f159
  {
  }

  lemma EC2DOctet1()
    ensures Octet(EC2D, 8) == 0x00e0149a8283b156
  {
  }

  lemma EC2DHigh()
    ensures Octet(EC2D, 16) == 0x198e80f2eef3d130 && Octet(EC2D, 24) == 0x2406d9dc56dffce7
  {
  }

  lemma EC2DValue()
    ensures Cong(Value(EC2D), 2 * D)
  {
    EC2DOctet0(); EC2DOctet1(); EC2DHigh();
    VOctets(EC2D, 0xebd69b9426b2f159, 0x00e0149a8283b156, 0x198e80f2eef3d130, 0x2406d9dc56dffce7);
    CongShift(2 * D, Value(EC2D), 1);
  }

  lemma EC2DLoose()
    ensures Loose(EC2D)
  {
  }

  /** p1p1_to_p2. */
  method ToP2(p: P1P1, ghost s: Point) returns (r: P2)
    requires Rep11(p, s)
    ensures Rep2(r, s)
  {
    var x := Mul(p.x, p.t);
    var y := Mul(p.y, p.z);
    var z := Mul(p.z, p.t);
    r := P2(x, y, z);
    CompleteToExtended(Value(p.x), Value(p.y), Value(p.z), Value(p.t), s, Value(x), Value(y), Value(z), 0);
  }

  /** p1p1_to_p3. */
  method ToP3(p: P1P1, ghost s: Point) returns (r: P3)
    requires Rep11(p, s)
    ensures Rep3(r, s)
  {
    var x := Mul(p.x, p.t);
    var y := Mul(p.y, p.z);
    var z := Mul(p.z, p.t);
    var t := Mul(p.x, p.y);
    r := P3(x, y, z, t);
    CompleteToExtended(Value(p.x), Value(p.y), Value(p.z), Value(p.t), s, Value(x), Value(y), Value(z), Value(t));
  }

  /** (Y1 - X1)(Y2 - X2) and (X1 + Y1)(X2 + Y2). */
  method CrossProducts(x1: Fe, y1: Fe, z1: Fe, x2: Fe, y2: Fe, ghost z2: int, ghost p: Point, ghost q: Point)
    returns (a: Fe, b: Fe)
    requires Loose(x1) && Loose(y1) && Loose(x2) && Loose(y2)
    requires Projective(Value(x1), Value(y1), Value(z1), p) && Projective(Value(x2), Value(y2), z2, q)
    ensures Loose(a) && Loose(b)
    ensures Cong(Value(a), ((p.y - p.x) * (q.y - q.x)) * (Value(z1) * z2))
    ensures Cong(Value(b), ((p.x + p.y) * (q.x + q.y)) * (Value(z1) * z2))
  {
    var a1 := Sub(y1, x1);
    var t1 := Sub(y2, x2);
    a := Mul(a1, t1);
    var b1 := Add(x1, y1);
    var t2 := Add(x2, y2);
    b := Mul(b1, t2);
    ScaledSum(Value(y1), p.y, Value(x1), p.x, Value(z1));
    ScaledSum(Value(y2), q.y, Value(x2), q.x, z2);
    ScaledSum(Value(x1), p.x, Value(y1), p.y, Value(z1));
    ScaledSum(Value(x2), q.x, Value(y2), q.y, z2);
    ScaledProduct(Value(a1), p.y - p.x, Value(z1), Value(t1), q.y - q.x, z2);
    ScaledProduct(Value(b1), p.x + p.y, Value(z1), Value(t2), q.x + q.y, z2);
  }

  /** T1 2d T2. */
  method TripleProduct(t1: Fe, t2: Fe, ghost z1: int, ghost z2: int, ghost p: Point, ghost q: Point) returns (c: Fe)
    requires Loose(t1) && Loose(t2)
    requires Cong(Value(t1), (p.x * p.y) * z1) && Cong(Value(t2), (q.x * q.y) * z2)
    ensures Loose(c) && Cong(Value(c), (2 * Delta(p, q)) * (z1 * z2))
  {
    var c0 := Mul(t1, t2);
    EC2DLoose();
    c := Mul(c0, EC2D);
    EC2DValue();
    ScaledProduct(Value(t1), p.x * p.y, z1, Value(t2), q.x * q.y, z2);
    CongMul(Value(c0), ((p.x * p.y) * (q.x * q.y)) * (z1 * z2), Value(EC2D), 2 * D);
    Rearrange((p.x * p.y) * (q.x * q.y), z1 * z2);
  }

  lemma Rearrange(m: int, w: int)
    ensures (m * w) * (2 * D) == (2 * (D * m)) * w
  {
    assert (m * w) * (2 * D) == 2 * ((D * m) * w);
  }

  /** add_p1p1. */
  method AddP1P1(c1: P3, c2: P3, ghost p: Point, ghost q: Point, ghost s: Point) returns (r: P1P1)
    requires Rep3(c1, p) && Rep3(c2, q) && IsSum(p, q, s)
    ensures Rep11(r, s)
  {
    ghost var w := Value(c1.z) * Value(c2.z);
    var a, b := CrossProducts(c1.x, c1.y, c1.z, c2.x, c2.y, Value(c2.z), p, q);
    var c := TripleProduct(c1.t, c2.t, Value(c1.z), Value(c2.z), p, q);
    var d0 := Mul(c1.z, c2.z);
    var d := Add(d0, d0);
    CongAdd(Value(d0), w, Value(d0), w);
    var e := Sub(b, a);
    var f := Sub(d, c);
    var g := Add(d, c);
    var h := Add(b, a);
    r := P1P1(e, g, h, f);
    UnitMul(Value(c1.z), Value(c2.z));
    AddFormula(p, q, s, w, Value(a), Value(b), Value(c), Value(d), Value(e), Value(f), Value(g), Value(h));
  }

  /** dbl_p1p1. */
  method DblP1P1(c: P2, ghost p: Point, ghost s: Point) returns (r: P1P1)
    requires Rep2(c, p) && OnCurve(p) && IsSum(p, p, s)
    ensures Rep11(r, s)
  {
    var a := Square(c.x);
    var b := Square(c.y);
    var c0 := Square(c.z);
    var cc := Add(c0, c0);
    var d := Neg(a);
    var x0 := Add(c.x, c.y);
    var x1 := Square(x0);
    var x2 := Sub(x1, a);
    var x := Sub(x2, b);
    var z := Add(d, b);
    var t := Sub(z, cc);
    var y := Sub(d, b);
    r := P1P1(x, z, y, t);
    ghost var w := Value(c.z) * Value(c.z);
    SquaredCoordinates(c, p, Value(a), Value(b), Value(x0), Value(x1));
    DoubledX(p, w, Value(a), Value(b), Value(x1), Value(x2), Value(x));
    DoubledYZT(p, w, Value(a), Value(b), Value(c0), Value(cc), Value(d), Value(y), Value(z), Value(t));
    UnitMul(Value(c.z), Value(c.z));
    DoubleFormula(p, s, w, Value(x), Value(t), Value(z), Value(y));
  }

  lemma SquaredCoordinates(c: P2, p: Point, a: int, b: int, x0: int, x1: int)
    requires Rep2(c, p) && Cong(a, Value(c.x) * Value(c.x)) && Cong(b, Value(c.y) * Value(c.y))
    requires Cong(x0, Value(c.x) + Value(c.y)) && Cong(x1, x0 * x0)
    ensures Cong(a, (p.x * p.x) * (Value(c.z) * Value(c.z))) && Cong(b, (p.y * p.y) * (Value(c.z) * Value(c.z)))
    ensures Cong(x1, ((p.x + p.y) * (p.x + p.y)) * (Value(c.z) * Value(c.z)))
  {
    var z := Value(c.z);
    ScaledProduct(Value(c.x), p.x, z, Value(c.x), p.x, z);
    ScaledProduct(Value(c.y), p.y, z, Value(c.y), p.y, z);
    ScaledSum(Value(c.x), p.x, Value(c.y), p.y, z);
    ScaledProduct(x0, p.x + p.y, z, x0, p.x + p.y, z);
  }

  /** (X + Y)^2 - X^2 - Y^2 = 2 X Y. */
  lemma DoubledX(p: Point, w: int, a: int, b: int, x1: int, x2: int, x: int)
    requires Cong(a, (p.x * p.x) * w) && Cong(b, (p.y * p.y) * w) && Cong(x1, ((p.x + p.y) * (p.x + p.y)) * w)
    requires Cong(x2, x1 - a) && Cong(x, x2 - b)
    ensures Cong(x, (2 * (p.x * p.y)) * w)
  {
    ScaledSum(x1, (p.x + p.y) * (p.x + p.y), a, p.x * p.x, w);
    ScaledSum(x2, (p.x + p.y) * (p.x + p.y) - p.x * p.x, b, p.y * p.y, w);
    assert (p.x + p.y) * (p.x + p.y) - p.x * p.x - p.y * p.y == 2 * (p.x * p.y);
  }

  lemma DoubledYZT(p: Point, w: int, a: int, b: int, c0: int, cc: int, d: int, y: int, z: int, t: int)
    requires Cong(a, (p.x * p.x) * w) && Cong(b, (p.y * p.y) * w) && Cong(c0, w) && Cong(cc, c0 + c0)
    requires Cong(d, -a) && Cong(z, d + b) && Cong(t, z - cc) && Cong(y, d - b)
    ensures Cong(z, (p.y * p.y - p.x * p.x) * w) && Cong(t, z - 2 * w)
    ensures Cong(y, -((p.x * p.x + p.y * p.y) * w))
  {
    var u, v := (p.x * p.x) * w, (p.y * p.y) * w;
    CongAdd(0, 0, a, u);
    CongAdd(d, -u, b, v);
    assert -u + v == (p.y * p.y - p.x * p.x) * w;
    assert -u - v == -((p.x * p.x + p.y * p.y) * w);
    CongAdd(c0, w, c0, w);
    CongAdd(z, z, cc, 2 * w);
  }

  /** ge25519_mixadd2: the second operand is affine. */
  method MixAdd2(c: P3, q: Aff, ghost p: Point, ghost r: Point, ghost s: Point) returns (c': P3)
    requires Rep3(c, p) && RepAff(q, r) && IsSum(p, r, s)
    ensures Rep3(c', s)
  {
    var qt := Mul(q.x, q.y);
    AffineIsProjective(q, r, Value(qt));
    var a, b := CrossProducts(c.x, c.y, c.z, q.x, q.y, 1, p, r);
    var e := Sub(b, a);
    var h := Add(b, a);
    var cc := TripleProduct(c.t, qt, Value(c.z), 1, p, r);
    var d := Add(c.z, c.z);
    var f := Sub(d, cc);
    var g := Add(d, cc);
    ghost var w := Value(c.z) * 1;
    AddFormula(p, r, s, w, Value(a), Value(b), Value(cc), Value(d), Value(e), Value(f), Value(g), Value(h));
    c' := ToP3(P1P1(e, g, h, f), s);
  }

  lemma AffineIsProjective(q: Aff, r: Point, qt: int)
    requires RepAff(q, r) && Cong(qt, Value(q.x) * Value(q.y))
    ensures Projective(Value(q.x), Value(q.y), 1, r) && Cong(qt, (r.x * r.y) * 1)
  {
    assert IsInverse(1, 1);
    CongMul(Value(q.x), r.x, Value(q.y), r.y);
  }
}
