/** The point formulas of ed25519/ge25519.c, as congruences between coordinates: extended
    coordinates (X, Y, Z, T) stand for the affine point (X/Z, Y/Z), with T = XY/Z. */
module Formulas {
  import opened Field
  import opened Edwards

  /** X and Y over Z. */
  ghost predicate Projective(X: int, Y: int, Z: int, p: Point) {
    Unit(Z) && Cong(X, p.x * Z) && Cong(Y, p.y * Z)
  }

  ghost predicate Extended(X: int, Y: int, Z: int, T: int, p: Point) {
    Projective(X, Y, Z, p) && Cong(T, (p.x * p.y) * Z)
  }

  /** The "completed" form: X over Z and Y over T. */
  ghost predicate Completed(X: int, Y: int, Z: int, T: int, p: Point) {
    Unit(Z) && Unit(T) && Cong(X, p.x * Z) && Cong(Y, p.y * T)
  }

  lemma UnitMul(a: int, b: int)
    requires Unit(a) && Unit(b)
    ensures Unit(a * b)
  {
    var c :| IsInverse(a, c);
    var d :| IsInverse(b, d);
    CongMul(a * c, 1, b * d, 1);
    Shuffle(a, b, c, d);
    assert IsInverse(a * b, c * d);
  }

  lemma Shuffle(a: int, b: int, c: int, d: int)
    ensures (a * b) * (c * d) == (a * c) * (b * d)
  {
  }

  lemma UnitCong(a: int, b: int)
    requires Unit(a) && Cong(a, b)
    ensures Unit(b)
  {
    var c :| IsInverse(a, c);
    CongMul(a, b, c, c);
    assert IsInverse(b, c);
  }

  lemma UnitTwo()
    ensures Unit(2)
  {
    var h := (Q + 1) / 2;
    CongShift(2 * h, 1, 1);
    assert IsInverse(2, h);
  }

  /** Products of scaled coordinates. */
  lemma ScaledProduct(P: int, a: int, Z1: int, R: int, b: int, Z2: int)
    requires Cong(P, a * Z1) && Cong(R, b * Z2)
    ensures Cong(P * R, (a * b) * (Z1 * Z2))
  {
    CongMul(P, a * Z1, R, b * Z2);
    Shuffle(a, b, Z1, Z2);
    assert (a * Z1) * (b * Z2) == (a * b) * (Z1 * Z2);
  }

  /** Sums of coordinates with the same scale. */
  lemma ScaledSum(P: int, a: int, R: int, b: int, Z: int)
    requires Cong(P, a * Z) && Cong(R, b * Z)
    ensures Cong(P + R, (a + b) * Z) && Cong(P - R, (a - b) * Z)
  {
    CongAdd(P, a * Z, R, b * Z);
    assert (a + b) * Z == a * Z + b * Z && (a - b) * Z == a * Z - b * Z;
  }

  /** The quotient step: n ~ a w, m ~ b w and s b ~ a give n ~ s m. */
  lemma Quotient(n: int, a: int, m: int, b: int, w: int, s: int)
    requires Cong(n, a * w) && Cong(m, b * w) && Cong(s * b, a)
    ensures Cong(n, s * m)
  {
    CongMul(s * b, a, w, w);
    CongMul(s, s, m, b * w);
    assert (s * b) * w == s * (b * w);
  }

  /** add_p1p1 and ge25519_mixadd2: A, B, C, D as commented there, w = Z1 Z2. */
  lemma AddFormula(p: Point, q: Point, s: Point, w: int, A: int, B: int, C: int, DD: int, E: int, F: int, G: int, H: int)
    requires IsSum(p, q, s) && Unit(w)
    requires Cong(A, ((p.y - p.x) * (q.y - q.x)) * w) && Cong(B, ((p.x + p.y) * (q.x + q.y)) * w)
    requires Cong(C, (2 * Delta(p, q)) * w) && Cong(DD, 2 * w)
    requires Cong(E, B - A) && Cong(F, DD - C) && Cong(G, DD + C) && Cong(H, B + A)
    ensures Completed(E, H, G, F, s)
  {
    var d, v := Delta(p, q), 2 * w;
    SumIs(p, q, s);
    AddDenominatorsUnits(d, w, C, DD, F, G);
    AddNumeratorsScaled(p.x, p.y, q.x, q.y, w, A, B, E, H);
    Quotient(E, p.x * q.y + q.x * p.y, G, 1 + d, v, s.x);
    Quotient(H, p.y * q.y + p.x * q.x, F, 1 - d, v, s.y);
  }

  lemma AddNumeratorsScaled(a: int, b: int, c: int, d: int, w: int, A: int, B: int, E: int, H: int)
    requires Cong(A, ((b - a) * (d - c)) * w) && Cong(B, ((a + b) * (c + d)) * w)
    requires Cong(E, B - A) && Cong(H, B + A)
    ensures Cong(E, (a * d + c * b) * (2 * w)) && Cong(H, (b * d + a * c) * (2 * w))
  {
    ScaledSum(B, (a + b) * (c + d), A, (b - a) * (d - c), w);
    AddNumerators(a, b, c, d, w);
  }

  lemma AddDenominatorsUnits(d: int, w: int, C: int, DD: int, F: int, G: int)
    requires Unit(1 + d) && Unit(1 - d) && Unit(w) && Cong(C, (2 * d) * w) && Cong(DD, 2 * w) && Cong(F, DD - C) && Cong(G, DD + C)
    ensures Cong(F, (1 - d) * (2 * w)) && Cong(G, (1 + d) * (2 * w)) && Unit(F) && Unit(G)
  {
    var v := 2 * w;
    ScaledSum(DD, 2, C, 2 * d, w);
    AddDenominators(d, w);
    UnitTwo();
    UnitMul(2, w);
    UnitMul(1 + d, v); UnitMul(1 - d, v);
    UnitCong((1 + d) * v, G); UnitCong((1 - d) * v, F);
  }

  lemma AddNumerators(a: int, b: int, c: int, d: int, w: int)
    ensures ((a + b) * (c + d) - (b - a) * (d - c)) * w == (a * d + c * b) * (2 * w)
    ensures ((a + b) * (c + d) + (b - a) * (d - c)) * w == (b * d + a * c) * (2 * w)
  {
    assert (a + b) * (c + d) - (b - a) * (d - c) == 2 * (a * d + c * b);
    assert (a + b) * (c + d) + (b - a) * (d - c) == 2 * (b * d + a * c);
  }

  lemma AddDenominators(d: int, w: int)
    ensures (2 + 2 * d) * w == (1 + d) * (2 * w) && (2 - 2 * d) * w == (1 - d) * (2 * w)
  {
  }

  /** dbl_p1p1, which uses the curve equation; w = Z^2. */
  lemma DoubleFormula(p: Point, s: Point, w: int, E: int, F: int, G: int, H: int)
    requires OnCurve(p) && IsSum(p, p, s) && Unit(w)
    requires Cong(E, (2 * (p.x * p.y)) * w) && Cong(G, (p.y * p.y - p.x * p.x) * w)
    requires Cong(F, G - 2 * w) && Cong(H, -((p.x * p.x + p.y * p.y) * w))
    ensures Completed(E, H, G, F, s)
  {
    var d := Delta(p, p);
    SumIs(p, p, s);
    CurveIs(p.x, p.y);
    CongMul(p.y * p.y - p.x * p.x, 1 + d, w, w);
    assert Cong(G, (1 + d) * w);
    CongAdd(G, (1 + d) * w, 2 * w, 2 * w);
    assert (1 + d) * w - 2 * w == (1 - d) * (-w);
    assert Cong(F, (1 - d) * (-w));
    NegUnit(w);
    UnitMul(1 + d, w); UnitMul(1 - d, -w);
    UnitCong((1 + d) * w, G); UnitCong((1 - d) * (-w), F);
    assert p.x * p.y + p.x * p.y == 2 * (p.x * p.y);
    Quotient(E, p.x * p.y + p.x * p.y, G, 1 + d, w, s.x);
    assert -((p.x * p.x + p.y * p.y) * w) == (p.y * p.y + p.x * p.x) * (-w);
    Quotient(H, p.y * p.y + p.x * p.x, F, 1 - d, -w, s.y);
  }

  lemma NegUnit(w: int)
    requires Unit(w)
    ensures Unit(-w)
  {
    var b :| IsInverse(w, b);
    assert (-w) * (-b) == w * b;
    assert IsInverse(-w, -b);
  }

  /** p1p1_to_p2 and p1p1_to_p3. */
  lemma CompleteToExtended(x: int, y: int, z: int, t: int, p: Point, X: int, Y: int, Z: int, T: int)
    requires Completed(x, y, z, t, p)
    requires Cong(X, x * t) && Cong(Y, y * z) && Cong(Z, z * t)
    ensures Projective(X, Y, Z, p)
    ensures Cong(T, x * y) ==> Extended(X, Y, Z, T, p)
  {
    UnitMul(z, t);
    UnitCong(z * t, Z);
    CongMul(x, p.x * z, t, t);
    CongMul(y, p.y * t, z, z);
    CongMul(p.x, p.x, Z, z * t);
    CongMul(p.y, p.y, Z, z * t);
    assert (p.x * z) * t == p.x * (z * t) && (p.y * t) * z == p.y * (z * t);
    ScaledProduct(x, p.x, z, y, p.y, t);
    CongMul(p.x * p.y, p.x * p.y, Z, z * t);
  }
}
