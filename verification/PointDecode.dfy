/** ge25519_unpackneg_vartime (ed25519/ge25519.c): decompressing -P from 32 bytes. */
module PointDecode {
  import opened Bits
  import opened Limbs
  import opened Field
  import opened Fe25519
  import opened FeCompare
  import opened FeChains
  import opened Edwards
  import opened Formulas
  import opened SquareRoot
  import opened PointEncode
  import opened Ge25519

  /** ge25519_ecd: the limbs of d. */
  const ECD: Fe :=
    [0xA3, 0x78, 0x59, 0x13, 0xCA, 0x4D, 0xEB, 0x75, 0xAB, 0xD8, 0x41, 0x41, 0x4D, 0x0A, 0x70, 0x00,
     0x98, 0xE8, 0x79, 0x77, 0x79, 0x40, 0xC7, 0x8C, 0x73, 0xFE, 0x6F, 0x2B, 0xEE, 0x6C, 0x03, 0x52]

  /** ge25519_sqrtm1. */
  const SQRTM1: Fe :=
    [0xB0, 0xA0, 0x0E, 0x4A, 0x27, 0x1B, 0xEE, 0xC4, 0x78, 0xE4, 0x2F, 0xAD, 0x06, 0x18, 0x43, 0x2F,
     0xA7, 0xD7, 0xFB, 0x3D, 0x99, 0x00, 0x4D, 0x2B, 0x0B, 0xDF, 0xC1, 0x4F, 0x80, 0x24, 0x83, 0x2B]

  lemma ECDOctet0()
    ensures Octet(ECD, 0) == 0x75eb4dca135978a3
  {
  }

  lemma ECDOctet1()
    ensures Octet(ECD, 8) == 0x00700a4d4141d8ab
  {
  }

  lemma ECDHigh()
    ensures Octet(ECD, 16) == 0x8cc740797779e898 && Octet(ECD, 24) == 0x52036cee2b6ffe73
  {
  }

  lemma ECDValue()
    ensures Value(ECD) == D
  {
    ECDOctet0(); ECDOctet1(); ECDHigh();
    VOctets(ECD, 0x75eb4dca135978a3, 0x00700a4d4141d8ab, 0x8cc740797779e898, 0x52036cee2b6ffe73);
  }

  lemma ConstantsLoose()
    ensures Loose(ECD) && Loose(SQRTM1)
  {
  }

  lemma RootOctet0()
    ensures Octet(SQRTM1, 0) == 0xc4ee1b274a0ea0b0
  {
  }

  lemma RootOctet1()
    ensures Octet(SQRTM1, 8) == 0x2f431806ad2fe478
  {
  }

  lemma RootHigh()
    ensures Octet(SQRTM1, 16) == 0x2b4d00993dfbd7a7 && Octet(SQRTM1, 24) == 0x2b8324804fc1df0b
  {
  }

  /** ge25519_sqrtm1 is a square root of -1. */
  lemma RootOfMinusOne()
    ensures Cong(Value(SQRTM1) * Value(SQRTM1), -1)
  {
    RootOctet0(); RootOctet1(); RootHigh();
    VOctets(SQRTM1, 0xc4ee1b274a0ea0b0, 0x2f431806ad2fe478, 0x2b4d00993dfbd7a7, 0x2b8324804fc1df0b);
    var i: int := 0x2b8324804fc1df0b_2b4d00993dfbd7a7_2f431806ad2fe478_c4ee1b274a0ea0b0;
    assert Value(SQRTM1) == i;
    CongShift(i * i, -1, 0xecaa2e2f6a2302ccedb31ac05720688238ced2078f3eb0ec9f22e8f621972e5);
  }

  /** x^2 (1 + d y^2) = y^2 - 1. */
  ghost predicate RootEquation(x: int, y: int) {
    Cong((x * x) * (1 + (y * y) * D), y * y - 1)
  }

  /** The curve equation of the decoded point. */
  lemma RootIsOnCurve(x: int, y: int)
    requires RootEquation(x, y)
    ensures Cong(y * y - x * x, 1 + D * ((x * x) * (y * y)))
  {
    var m, n := x * x, y * y;
    assert m * (1 + n * D) == m + D * (m * n);
    CongAdd(m + D * (m * n), n - 1, 1 - m, 1 - m);
  }

  /** And back. */
  lemma OnCurveIsRoot(x: int, y: int)
    requires CurveAt(x, y, 5)
    ensures RootEquation(x, y)
  {
    CurveIs(x, y);
    var m, n := x * x, y * y;
    assert (x * y) * (x * y) == m * n;
    assert m * (1 + n * D) == m + D * (m * n);
    CongAdd(n - m, 1 + D * (m * n), m - 1, m - 1);
  }

  /** The denominator 1 + d y^2 of a point is not zero. */
  lemma DenominatorNotZero(x: int, y: int)
    requires RootEquation(x, y)
    ensures !Cong(1 + (y * y) * D, 0)
  {
    var m, n := x * x, y * y;
    CongIsMod(1 + D, 0);
    if Cong(1 + n * D, 0) {
      CongMul(m, m, 1 + n * D, 0);
      assert m * 0 == 0;
      CongAdd(n - 1, 0, 1, 1);
      CongMul(n, 1, D, D);
      CongAdd(1, 1, n * D, 1 * D);
      assert false;
    }
  }

  method SetOne() returns (one: Fe)
    ensures Below(one) && Value(one) == 1
  {
    one := seq(32, i => if i == 0 then 1 else 0);
    ghost var zero: Fe := seq(32, _ => 0);
    VZero(zero, 32);
    VUpdate(zero, one, 0, 32);
    assert P(0) == 1;
  }

  /** num = y^2 - 1 and den = d y^2 + 1. */
  method NumDen(y: Fe, one: Fe) returns (num: Fe, den: Fe)
    requires Loose(y) && Loose(one) && Value(one) == 1
    ensures Below(num) && Loose(den)
    ensures Cong(Value(num), Value(y) * Value(y) - 1) && Cong(Value(den), 1 + (Value(y) * Value(y)) * D)
  {
    ghost var yy := Value(y) * Value(y);
    var y2 := Square(y);
    ConstantsLoose();
    ECDValue();
    var dy2 := Mul(y2, ECD);
    num := Sub(y2, one);
    den := Add(one, dy2);
    CongMul(Value(y2), yy, D, D);
    CongAdd(Value(y2), yy, 1, 1);
    CongAdd(1, 1, Value(dy2), yy * D);
  }

  /** num den^3 (num den^7)^((p-5)/8), the candidate root. */
  method Candidate(num: Fe, den: Fe) returns (x: Fe)
    requires Loose(num) && Loose(den)
    ensures Loose(x) && Value(x) < P255 + EXCESS && IsCandidate(Value(x), Value(num), Value(den))
  {
    ghost var n, d := Value(num), Value(den);
    ghost var d2 := d * d;
    var den2 := Square(den);
    var den4 := Square(den2);
    CongMul(Value(den2), d2, Value(den2), d2);
    var den6 := Mul(den4, den2);
    CongMul(Value(den4), d2 * d2, Value(den2), d2);
    var t := Mul(den6, num);
    CongMul(Value(den6), d2 * d2 * d2, n, n);
    var t7 := Mul(t, den);
    CongMul(Value(t), d2 * d2 * d2 * n, d, d);
    var w := Pow2523(t7);
    PowCong(Value(t7), d2 * d2 * d2 * n * d, Exponent2523());
    x := TimesCubes(w, num, den, Pow(d2 * d2 * d2 * n * d, Exponent2523()));
  }

  /** x = w num den^3. */
  method TimesCubes(w: Fe, num: Fe, den: Fe, ghost e: int) returns (x: Fe)
    requires Loose(w) && Loose(num) && Loose(den) && Cong(Value(w), e)
    ensures Loose(x) && Value(x) < P255 + EXCESS
    ensures Cong(Value(x), e * Value(num) * Value(den) * Value(den) * Value(den))
  {
    ghost var n, d := Value(num), Value(den);
    var t := Mul(w, num);
    CongMul(Value(w), e, n, n);
    var t1 := Mul(t, den);
    CongMul(Value(t), e * n, d, d);
    var t2 := Mul(t1, den);
    CongMul(Value(t1), e * n * d, d, d);
    x := Mul(t2, den);
    CongMul(Value(t2), e * n * d * d, d, d);
  }

  /** chk is x^2 den, as the code computes it from a square sq. */
  ghost predicate IsCheck(chk: Fe, sq: Fe, x: Fe, den: Fe) {
    && Loose(chk) && Loose(sq) && Cong(Value(sq), Value(x) * Value(x)) && Cong(Value(chk), Value(sq) * Value(den))
    && Cong(Value(chk), (Value(x) * Value(x)) * Value(den))
    && LeastProduct(sq, den, 3) <= Value(chk) < P255 + EXCESS
  }

  /** chk = x^2 den compared with num: congruence, if chk is below 2^255. */
  method Check(x: Fe, num: Fe, den: Fe) returns (ok: bool, ghost chk: Fe, ghost sq: Fe)
    requires Loose(x) && Below(num) && Loose(den)
    ensures IsCheck(chk, sq, x, den)
    ensures ok <==> Cong(Value(chk), Value(num)) && Below(chk)
  {
    var x2 := Square(x);
    var c := Mul(x2, den);
    ok := IsEqVartime(c, num);
    CongMul(Value(x2), Value(x) * Value(x), Value(den), Value(den));
    LooseBound(c);
    LooseBound(num);
    EqualityExactly(Value(c), Value(num));
    chk, sq := c, x2;
  }

  /** What ge25519_unpackneg_vartime computes on the way to its root. */
  datatype Trace = Trace(num: Fe, den: Fe, first: Fe, chk1: Fe, sq1: Fe, root: Fe, chk2: Fe, sq2: Fe)

  ghost predicate IsSearch(tr: Trace) {
    && Below(tr.num) && Loose(tr.den) && Loose(tr.first) && Loose(tr.root) && Value(tr.root) < P255 + EXCESS
    && IsCandidate(Value(tr.first), Value(tr.num), Value(tr.den))
    && IsCheck(tr.chk1, tr.sq1, tr.first, tr.den) && IsCheck(tr.chk2, tr.sq2, tr.root, tr.den)
    && (if Cong(Value(tr.chk1), Value(tr.num)) && Below(tr.chk1) then tr.root == tr.first
        else Cong(Value(tr.root), Value(tr.first) * Value(SQRTM1)))
  }

  ghost predicate IsTrace(tr: Trace, y: int) {
    IsSearch(tr) && Cong(Value(tr.num), y * y - 1) && Cong(Value(tr.den), 1 + (y * y) * D)
  }

  /** Steps 1 to 4: the candidate, corrected by sqrt(-1) if it fails, and checked again. */
  method FindRoot(num: Fe, den: Fe) returns (ok: bool, x: Fe, ghost tr: Trace)
    requires Below(num) && Loose(den)
    ensures IsSearch(tr) && tr.num == num && tr.den == den && tr.root == x
    ensures ok <==> Cong(Value(tr.chk2), Value(num)) && Below(tr.chk2)
  {
    x := Candidate(num, den);
    ghost var first, chk1, sq1, chk2, sq2 := x, x, x, x, x;
    ok, chk1, sq1 := Check(x, num, den);
    if !ok {
      ConstantsLoose();
      x := Mul(x, SQRTM1);
    }
    ok, chk2, sq2 := Check(x, num, den);
    tr := Trace(num, den, first, chk1, sq1, x, chk2, sq2);
  }

  /** A match proves the root equation. */
  lemma MatchIsRoot(x: int, y: int, num: int, den: int, chk: int)
    requires Cong(num, y * y - 1) && Cong(den, 1 + (y * y) * D) && Cong(chk, (x * x) * den) && Cong(chk, num)
    ensures RootEquation(x, y)
  {
    CongMul(x * x, x * x, den, 1 + (y * y) * D);
  }

  /** No check that holds is spoilt by a limb 31 of 128. */
  ghost predicate Clean(tr: Trace) {
    (Cong(Value(tr.chk1), Value(tr.num)) ==> Below(tr.chk1)) && Below(tr.chk2)
  }

  /** For the y of a curve point, a root is found exactly if the checks are clean. */
  lemma RootFound(ok: bool, tr: Trace, a: int, y: int)
    requires FermatHolds() && CurveAt(a, y, 5) && IsTrace(tr, y)
    requires ok <==> Cong(Value(tr.chk2), Value(tr.num)) && Below(tr.chk2)
    ensures ok <==> Clean(tr)
    ensures (Cong(Value(tr.chk1), Value(tr.num)) ==> Below(tr.chk1)) ==>
      Cong(Value(tr.chk2), Value(tr.num)) && Cong(Value(tr.root) * Value(tr.root), a * a)
  {
    OnCurveIsRoot(a, y);
    DenominatorNotZero(a, y);
    CongMul(a * a, a * a, Value(tr.den), 1 + (y * y) * D);
    RootOfMinusOne();
    ZeroIsBelow(tr.chk1);
    ZeroIsBelow(tr.chk2);
    AcceptedExactly(a, Value(tr.num), Value(tr.den), Value(tr.first), Value(tr.root), Value(SQRTM1),
                    Value(tr.chk1), Value(tr.chk2), Below(tr.chk1), Below(tr.chk2), ok);
  }

  /** Points that are decoded whatever the limbs: neither y^2 - 1 nor x nor -x is a small residue. */
  ghost predicate Decodable(q: Point) {
    !Wraps(Residue(q.y * q.y - 1, 7)) && !Wraps(q.x) && !Wraps(Q - q.x)
  }

  lemma ResidueIsCong(a: int)
    ensures 0 <= Residue(a, 7) < Q && Cong(a, Residue(a, 7))
  {
    ResidueIs(a);
    CongIsMod(a, a % Q);
  }

  /** For those the checks are clean and the root is below 2^255. */
  lemma DecodableIsClean(tr: Trace, q: Point)
    requires FermatHolds() && OnCurve(q) && IsTrace(tr, q.y) && Decodable(q)
    ensures Clean(tr) && Below(tr.root)
  {
    ResidueIsCong(q.y * q.y - 1);
    ChecksBelow(tr, q, Residue(q.y * q.y - 1, 7));
    RootBelow(tr.root, q.x);
  }

  lemma ChecksBelow(tr: Trace, q: Point, n: int)
    requires FermatHolds() && OnCurve(q) && IsTrace(tr, q.y) && 0 <= n < Q && Cong(q.y * q.y - 1, n) && !Wraps(n)
    ensures Clean(tr) && Cong(Value(tr.root) * Value(tr.root), q.x * q.x)
  {
    if Cong(Value(tr.chk1), Value(tr.num)) {
      ProductBelow(tr.chk1, n);
    }
    RootFound(Cong(Value(tr.chk2), Value(tr.num)) && Below(tr.chk2), tr, q.x, q.y);
    ProductBelow(tr.chk2, n);
  }

  lemma RootBelow(x: Fe, a: int)
    requires FermatHolds() && Loose(x) && Value(x) < P255 + EXCESS && Canonical(a, 5) && Cong(Value(x) * Value(x), a * a)
    requires !Wraps(a) && !Wraps(Q - a)
    ensures Below(x)
  {
    CanonicalIs(a);
    SameSquare(Value(x), a);
    if Cong(Value(x), a) {
      ProductBelow(x, a);
    } else {
      CongShift(Q - a, -a, 1);
      ProductBelow(x, Q - a);
    }
  }

  /** The loose multiples of q are 0 and q. */
  lemma ZeroIsBelow(x: Fe)
    requires Loose(x)
    ensures Cong(Value(x), 0) ==> Below(x)
  {
    LooseBound(x);
    if Cong(Value(x), 0) {
      FrozenOf(Value(x), 0);
    }
  }

  /** Step 5: the root whose frozen value has the opposite of the encoded parity. */
  method ChooseSign(x: Fe, par: nat) returns (r: Fe)
    requires Loose(x) && par <= 1
    ensures Loose(r) && Cong(Value(r) * Value(r), Value(x) * Value(x))
    ensures Below(x) && Frozen(Value(x)) != 0 ==> Frozen(Value(r)) % 2 == 1 - par
    ensures if Frozen(Value(x)) % 2 == 1 - par then r == x else Cong(Value(r), -Value(x))
  {
    var parity := GetParity(x);
    r := x;
    if parity != 1 - par {
      r := Neg(x);
      CongMul(Value(r), -Value(x), Value(r), -Value(x));
      assert -Value(x) * -Value(x) == Value(x) * Value(x);
      if Below(x) {
        LooseBound(x);
        LooseBound(r);
        OppositeParity(Value(x), Value(r));
      }
    }
  }

  /** q is odd, so the canonical residues of v and -v have opposite parity unless they are 0. */
  lemma OppositeParity(v: int, w: int)
    requires 0 <= v < P255 && 0 <= w < P255 && Cong(w, -v)
    ensures Frozen(v) != 0 ==> Frozen(w) % 2 == 1 - Frozen(v) % 2
  {
    FrozenCanonical(v);
    FrozenCanonical(w);
    var k := CongWitness(w, -v);
    if v % Q != 0 {
      DivModUnique(w, Q, k - 1 - v / Q, Q - v % Q);
    }
  }

  /** The sign chosen for a root of a^2, with the parity of a given, is that of -a exactly if the root is
      below 2^255. */
  lemma SignExactly(a: int, x: int, r: int, par: int)
    requires FermatHolds() && 0 <= a < Q && par == a % 2 && 0 <= x < 129 * P(31) && Cong(x * x, a * a)
    requires if Frozen(x) % 2 == 1 - par then r == x else Cong(r, -x)
    ensures Cong(r, -a) <==> x < P255
  {
    SameSquare(x, a);
    if a == 0 {
      FrozenOf(x, 0);
      CongAdd(0, 0, x, 0);
    } else {
      NotOwnNegative(a);
      if Cong(x, a) {
        SameSign(a, x, r, par);
      } else {
        OtherSign(a, x, r, par);
      }
    }
  }

  lemma NotOwnNegative(a: int)
    requires FermatHolds() && 0 < a < Q
    ensures !Cong(a, -a)
  {
    CongIsMod(a, 0);
    if Cong(a, -a) {
      NegIsOther(a);
      assert false;
    }
  }

  lemma SameSign(a: int, x: int, r: int, par: int)
    requires 0 < a < Q && par == a % 2 && 0 <= x < 129 * P(31) && Cong(x, a) && !Cong(a, -a)
    requires if Frozen(x) % 2 == 1 - par then r == x else Cong(r, -x)
    ensures Cong(r, -a) <==> x < P255
  {
    FrozenOf(x, a);
    ParityOf(Frozen(x), a, x < P255);
    CongAdd(0, 0, x, a);
  }

  lemma OtherSign(a: int, x: int, r: int, par: int)
    requires 0 < a < Q && par == a % 2 && 0 <= x < 129 * P(31) && Cong(x, -a) && !Cong(a, -a)
    requires if Frozen(x) % 2 == 1 - par then r == x else Cong(r, -x)
    ensures Cong(r, -a) <==> x < P255
  {
    CongShift(Q - a, -a, 1);
    FrozenOf(x, Q - a);
    ParityOf(Frozen(x), Q - a, x < P255);
    OddModulus(a);
    CongAdd(0, 0, x, -a);
  }

  lemma OddModulus(a: int)
    ensures (Q - a) % 2 == 1 - a % 2
  {
  }

  /** Coordinates with z = 1 stand for -q exactly if x is congruent to that of -q. */
  lemma NegatedExactly(r: P3, g: Group, q: Point)
    requires Loose(r.x) && Loose(r.y) && Loose(r.z) && Loose(r.t) && Value(r.z) == 1 && Value(r.y) == q.y
    requires Cong(Value(r.t), Value(r.x) * Value(r.y))
    ensures Rep3(r, g.Neg(q)) <==> Cong(Value(r.x), -q.x)
  {
    var n := g.Neg(q);
    NegX(q.x);
    assert IsInverse(1, 1) && n.x * 1 == n.x && n.y * 1 == n.y && (n.x * n.y) * 1 == n.x * n.y;
    if Cong(Value(r.x), n.x) {
      CongMul(Value(r.x), n.x, q.y, q.y);
    }
  }

  /** ge25519_unpackneg_vartime.  Whatever is accepted is on the curve, with z = 1 and t = x y.  The
      canonical encoding of a point q is accepted exactly if the checks are clean, and the result is -q
      exactly if the root found is below 2^255 too. */
  method UnpackNegVartime(p: seq<byte>, ghost g: Group, ghost q: Point) returns (ok: bool, r: P3, ghost tr: Trace)
    requires |p| == 32
    ensures Loose(r.x) && Loose(r.y) && Loose(r.z) && Loose(r.t)
    ensures Value(r.z) == 1 && Value(r.y) == Value(p) % P255
    ensures ok ==> Cong(Value(r.t), Value(r.x) * Value(r.y))
    ensures ok ==> Cong(Value(r.y) * Value(r.y) - Value(r.x) * Value(r.x),
                        1 + D * ((Value(r.x) * Value(r.x)) * (Value(r.y) * Value(r.y))))
    ensures ok ==> Decoded(r)
    ensures IsTrace(tr, Value(r.y)) && (ok <==> Cong(Value(tr.chk2), Value(tr.num)) && Below(tr.chk2))
    ensures ok ==> if Frozen(Value(tr.root)) % 2 == 1 - p[31] / 128 then r.x == tr.root else Cong(Value(r.x), -Value(tr.root))
    ensures FermatHolds() && OnCurve(q) && Value(p) == Encoding(q) ==>
      (ok <==> Clean(tr)) && (ok ==> (Rep3(r, g.Neg(q)) <==> Below(tr.root)))
  {
    var one := SetOne();
    var y := Unpack(p);
    var x;
    ok, x, tr := RootFor(y, one);
    r := P3(x, y, one, one);
    if ok {
      var signed := ChooseSign(x, p[31] / 128);
      r := Finish(signed, x, y, one);
    }
    DecodedExactly(p, g, q, ok, r, tr);
  }

  /** The root for a given y, if it is found. */
  method RootFor(y: Fe, one: Fe) returns (ok: bool, x: Fe, ghost tr: Trace)
    requires Loose(y) && Loose(one) && Value(one) == 1
    ensures IsTrace(tr, Value(y)) && tr.root == x && (ok <==> Cong(Value(tr.chk2), Value(tr.num)) && Below(tr.chk2))
    ensures ok ==> RootEquation(Value(x), Value(y))
  {
    var num, den := NumDen(y, one);
    ok, x, tr := FindRoot(num, den);
    if ok {
      MatchIsRoot(Value(x), Value(y), Value(num), Value(den), Value(tr.chk2));
    }
  }

  /** The end of ge25519_unpackneg_vartime: t = x y. */
  method Finish(signed: Fe, ghost x: Fe, y: Fe, one: Fe) returns (r: P3)
    requires Loose(signed) && Loose(x) && Loose(y) && Loose(one) && Value(one) == 1
    requires RootEquation(Value(x), Value(y)) && Cong(Value(signed) * Value(signed), Value(x) * Value(x))
    ensures r.x == signed && r.y == y && r.z == one && Loose(r.t) && Cong(Value(r.t), Value(r.x) * Value(r.y))
    ensures Cong(Value(y) * Value(y) - Value(signed) * Value(signed),
                 1 + D * ((Value(signed) * Value(signed)) * (Value(y) * Value(y))))
    ensures Decoded(r)
  {
    ghost var e := 1 + (Value(y) * Value(y)) * D;
    CongMul(Value(signed) * Value(signed), Value(x) * Value(x), e, e);
    RootIsOnCurve(Value(signed), Value(y));
    var t := Mul(signed, y);
    r := P3(signed, y, one, t);
    RootIsDecoded(r);
  }

  lemma DecodedExactly(p: seq<byte>, g: Group, q: Point, ok: bool, r: P3, tr: Trace)
    requires |p| == 32
    requires Loose(r.x) && Loose(r.y) && Loose(r.z) && Loose(r.t) && Value(r.z) == 1 && Value(r.y) == Value(p) % P255
    requires ok ==> Cong(Value(r.t), Value(r.x) * Value(r.y))
    requires IsTrace(tr, Value(r.y)) && (ok <==> Cong(Value(tr.chk2), Value(tr.num)) && Below(tr.chk2))
    requires ok ==> if Frozen(Value(tr.root)) % 2 == 1 - p[31] / 128 then r.x == tr.root else Cong(Value(r.x), -Value(tr.root))
    ensures FermatHolds() && OnCurve(q) && Value(p) == Encoding(q) ==>
      (ok <==> Clean(tr)) && (ok ==> (Rep3(r, g.Neg(q)) <==> Below(tr.root)))
  {
    if FermatHolds() && OnCurve(q) && Value(p) == Encoding(q) {
      EncodedParts(p, q);
      RootFound(ok, tr, q.x, q.y);
      if ok {
        CanonicalIs(q.x);
        LooseBound(tr.root);
        SignExactly(q.x, Value(tr.root), Value(r.x), p[31] / 128);
        NegatedExactly(r, g, q);
      }
    }
  }

  /** The two parts of a canonical encoding. */
  lemma EncodedParts(p: seq<byte>, q: Point)
    requires |p| == 32 && Value(p) == Encoding(q)
    ensures Value(p) % P255 == q.y && p[31] / 128 == q.x % 2
  {
    CanonicalIs(q.y);
    VBound(p, 31);
    assert V(p, 32) == V(p, 31) + p[31] * P(31);
    TopOfNumber(V(p, 31), p[31], Value(p), P(31));
    DivModUnique(Value(p), P255, q.x % 2, q.y);
  }

  /** Coordinates that satisfy the curve equation stand for the point of their residues. */
  lemma RootIsDecoded(r: P3)
    requires Loose(r.x) && Loose(r.y) && Loose(r.z) && Loose(r.t) && Value(r.z) == 1
    requires Cong(Value(r.t), Value(r.x) * Value(r.y))
    requires RootEquation(Value(r.x), Value(r.y))
    ensures Decoded(r)
  {
    var X, Y := Value(r.x), Value(r.y);
    var x := Reduce(X);
    var y := Reduce(Y);
    CanonicalIs(x);
    CanonicalIs(y);
    var p := Affine(x, y);
    CongMul(X, x, Y, y);
    assert IsInverse(1, 1);
    assert Extended(X, Y, 1, Value(r.t), p);
    RootOfCongruent(X, Y, x, y);
    RootIsOnCurve(x, y);
    assert (x * x) * (y * y) == (x * y) * (x * y);
    CurveIs(x, y);
    assert OnCurve(p);
  }

  lemma Reduce(a: int) returns (r: int)
    ensures 0 <= r < Q && Cong(a, r)
  {
    r := a % Q;
    CongIsMod(a, r);
  }

  lemma RootOfCongruent(X: int, Y: int, x: int, y: int)
    requires Cong(X, x) && Cong(Y, y) && RootEquation(X, Y)
    ensures RootEquation(x, y)
  {
    CongMul(X, x, X, x);
    CongMul(Y, y, Y, y);
    CongMul(Y * Y, y * y, D, D);
    CongAdd(1, 1, (Y * Y) * D, (y * y) * D);
    CongMul(X * X, x * x, 1 + (Y * Y) * D, 1 + (y * y) * D);
    CongAdd(Y * Y, y * y, 1, 1);
  }

  // ---- a curve point whose encoding is refused ----

  const NINE_X: nat := 20998110467665258077629620998309994886851780706327836337918840104339545710600

  /** The point with y = 9 and x even; its encoding is the byte 9 and 31 zeros. */
  function Nine(): Point {
    CanonicalIs(NINE_X); CanonicalIs(9);
    Affine(NINE_X, 9)
  }

  lemma NineOnCurve()
    ensures OnCurve(Nine()) && Encoding(Nine()) == 9
  {
    var x: int := NINE_X;
    CurveIs(x, 9);
    CongShift(81 - x * x, 1 + D * ((x * 9) * (x * 9)), -NINE_MULTIPLE);
  }

  const NINE_MULTIPLE: int :=
    0x1b4eba346b92ed00b13368391bd58b61f317965b4681cb1c9a8b1bb1b8ebbfdcc5044354ec9eb6469b026c52c2ac5cd21725ff70bc57cfe4d5f319e80458f0170

  /** 1 + 81 d and its inverse. */
  const NINE_DEN: nat := 0x7315775bbe6f828f8b0b666ecd92981823734271a5d58e404f739cf01f4f2f5d
  const NINE_INV: nat := 0x23e57e6cf5487ab2cc02d250c0cb899c14da16aeb579f789e6ed9dc778252e41

  lemma NineDen(den: Fe)
    requires Loose(den) && Cong(Value(den), 1 + 81 * D)
    ensures Cong(Value(den), NINE_DEN) && den[31] == 115
  {
    CongShift(1 + 81 * D, NINE_DEN, 51);
    PLiterals();
    TopOfResidue(den, NINE_DEN, 115);
  }

  /** The square of x, as 80 / (1 + 81 d). */
  lemma NineSquare(sq: Fe, den: int)
    requires Loose(sq) && Cong(den, NINE_DEN) && Cong(Value(sq) * den, 80)
    ensures sq[31] == 55
  {
    var v, i := Value(sq), NINE_INV;
    CongMul(v, v, den, NINE_DEN);
    CongMul(v * NINE_DEN, 80, i, i);
    CongShift(NINE_DEN * NINE_INV, 1, 0x204634b5b85876eb3c9611c34ccec8b96321226eacd8e78f3cc18d9a7e6b038c);
    CongMul(v, v, NINE_DEN * i, 1);
    assert (v * NINE_DEN) * i == v * (NINE_DEN * i);
    CongShift(80 * NINE_INV, 0x37b7820ca6a657dfc0e1b93c3f9b00c684271698b61d5b182a414e558b9e75f2, 22);
    PLiterals();
    TopOfResidue(sq, 0x37b7820ca6a657dfc0e1b93c3f9b00c684271698b61d5b182a414e558b9e75f2, 55);
  }

  /** Every check of y = 9 that holds is above 2^255. */
  lemma NineWraps(chk: Fe, sq: Fe, x: Fe, den: Fe)
    requires IsCheck(chk, sq, x, den) && Loose(den) && Cong(Value(den), 1 + 81 * D) && Cong(Value(chk), 80)
    ensures !Below(chk)
  {
    NineDen(den);
    NineSquare(sq, Value(den));
    LeastProductIs(sq, den);
    ProductWraps(chk, 80);
  }

  /** ge25519_unpackneg_vartime refuses the encoding of this curve point. */
  method RefusesNine() returns (p: seq<byte>, ok: bool)
    ensures |p| == 32 && OnCurve(Nine()) && Value(p) == Encoding(Nine()) && !ok
  {
    p := seq(32, i => if i == 0 then 9 else 0);
    NineOnCurve();
    ghost var zero: Fe := seq(32, _ => 0);
    VZero(zero, 32);
    VUpdate(zero, p, 0, 32);
    assert P(0) == 1;
    var r;
    ghost var tr;
    ok, r, tr := UnpackNegVartime(p, Group((a, b) => a), Nine());
    if ok {
      DivModUnique(9, P255, 0, 9);
      NineWraps(tr.chk2, tr.sq2, tr.root, tr.den);
    }
  }
}
