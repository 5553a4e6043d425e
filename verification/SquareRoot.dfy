/** Why the candidate of ge25519_unpackneg_vartime is a square root up to a factor sqrt(-1), if there is
    one.  Fermat's theorem modulo 2^255-19 is the only hypothesis. */
module SquareRoot {
  import opened Bits
  import opened Field
  import opened FeChains
  import opened Edwards

  /** Fermat's theorem for z. */
  ghost predicate Fermat(z: int) {
    Cong(Pow(z, Q - 1), 1)
  }

  /** Fermat's theorem: 2^255-19 is prime. */
  ghost predicate FermatHolds() {
    forall z {:trigger Fermat(z)} :: !Cong(z, 0) ==> Fermat(z)
  }

  // ---- powers ----

  lemma {:induction false} PowMul(x: int, y: int, e: nat)
    ensures Pow(x * y, e) == Pow(x, e) * Pow(y, e)
    decreases e, 0
  {
    if e > 0 {
      PowMul(x, y, e - 1);
      Swap(x, y, Pow(x, e - 1), Pow(y, e - 1));
    }
  }

  lemma Swap(a: int, b: int, c: int, d: int)
    ensures (a * b) * (c * d) == (a * c) * (b * d)
  {
  }

  lemma {:induction false} PowPow(x: int, a: nat, e: nat)
    ensures Pow(Pow(x, a), e) == Pow(x, a * e)
    decreases e, 0
  {
    if e > 0 {
      PowPow(x, a, e - 1);
      assert a * e == a + a * (e - 1);
      PowAdd(x, a, a * (e - 1));
    }
  }

  lemma {:induction false} PowCong(a: int, b: int, e: nat)
    requires Cong(a, b)
    ensures Cong(Pow(a, e), Pow(b, e))
    decreases e, 0
  {
    if e > 0 {
      PowCong(a, b, e - 1);
      CongMul(a, b, Pow(a, e - 1), Pow(b, e - 1));
    }
  }

  lemma SmallPowers(x: int)
    ensures Pow(x, 1) == x && Pow(x, 2) == x * x && Pow(x, 4) == (x * x) * (x * x)
    ensures Pow(x, 8) == ((x * x) * (x * x)) * ((x * x) * (x * x))
  {
    assert Pow(x, 0) == 1;
    PowAdd(x, 1, 1);
    PowAdd(x, 2, 2);
    PowAdd(x, 4, 4);
  }

  // ---- the field ----

  lemma OneIsNotZero()
    ensures !Cong(1, 0) && !Cong(0, 1)
  {
    CongIsMod(1, 0);
  }

  /** What has an inverse is not zero. */
  lemma UnitNotZero(z: int)
    requires Unit(z)
    ensures !Cong(z, 0)
  {
    var i :| IsInverse(z, i);
    OneIsNotZero();
    if Cong(z, 0) {
      CongMul(z, 0, i, i);
      assert false;
    }
  }

  lemma NoZeroDivisors(a: int, b: int)
    requires Fermat(a) && Cong(a * b, 0)
    ensures Cong(b, 0)
  {
    var p := Pow(a, Q - 2);
    assert Pow(a, Q - 1) == a * p;
    CongMul(a * b, 0, p, p);
    CongMul(a * p, 1, b, b);
    assert (a * b) * p == (a * p) * b && 0 * p == 0 && 1 * b == b;
  }

  /** The square roots of 1. */
  lemma RootsOfOne(h: int)
    requires FermatHolds() && Cong(h * h, 1)
    ensures Cong(h, 1) || Cong(h, -1)
  {
    CongAdd(h * h, 1, 1, 1);
    assert (h - 1) * (h + 1) == h * h - 1;
    if !Cong(h - 1, 0) {
      assert Fermat(h - 1);
      NoZeroDivisors(h - 1, h + 1);
      CongAdd(h + 1, 0, 1, 1);
    } else {
      CongAdd(h - 1, 0, 1, 1);
    }
  }

  // ---- the candidate ----

  /** 2^252-3, (q-1)/2 and q-1. */
  lemma Exponents()
    ensures Exponent2523() >= 0 && 8 * Exponent2523() + 4 == Q - 1 && 4 * Exponent2523() + 4 == 2 + (Q - 1) / 2
  {
    PowersOfTwo();
    Pow2Add(128, 124);
    Pow2Add(4, 124);
    assert Pow2(4) == 16;
  }

  lemma PowersOfTwo()
    ensures Pow2(64) == 0x1_00000000_00000000 && Pow2(128) == 0x1_00000000_00000000_00000000_00000000
  {
    Pow2Words();
    Pow2Add(32, 32);
    Pow2Add(64, 64);
  }

  ghost predicate IsCandidate(x: int, n: int, d: int) {
    var d2 := d * d;
    Exponent2523() >= 0 && Cong(x, Pow(d2 * d2 * d2 * n * d, Exponent2523()) * n * d * d * d)
  }

  /** For n = a^2 d the base of the power is a^2 d^8. */
  lemma CandidateBase(a: int, n: int, d: int)
    requires Cong(n, (a * a) * d)
    ensures var d2 := d * d; Cong(d2 * d2 * d2 * n * d, (a * a) * Pow(d, 8))
  {
    var d2 := d * d;
    SmallPowers(d);
    CongMul(d2 * d2 * d2, d2 * d2 * d2, n, (a * a) * d);
    CongMul(d2 * d2 * d2 * n, d2 * d2 * d2 * ((a * a) * d), d, d);
    Shuffle8(a * a, d, d2);
  }

  lemma Shuffle8(s: int, d: int, d2: int)
    requires d2 == d * d
    ensures d2 * d2 * d2 * (s * d) * d == s * ((d2 * d2) * (d2 * d2))
  {
    var d6 := d2 * d2 * d2;
    assert d6 * (s * d) * d == s * (d6 * (d * d));
    assert d6 * d2 == (d2 * d2) * (d2 * d2);
  }

  /** The candidate is a^((q+3)/4). */
  lemma CandidateIs(a: int, n: int, d: int, x: int)
    requires Fermat(d) && Cong(n, (a * a) * d) && IsCandidate(x, n, d)
    ensures Cong(x, Pow(a, 2 * Exponent2523() + 2))
  {
    var e := Exponent2523();
    Exponents();
    CandidateBase(a, n, d);
    var d2 := d * d;
    PowCong(d2 * d2 * d2 * n * d, (a * a) * Pow(d, 8), e);
    PowMul(a * a, Pow(d, 8), e);
    SmallPowers(a);
    PowPow(a, 2, e);
    PowPow(d, 8, e);
    CandidateParts(a, n, d, x, Pow(d2 * d2 * d2 * n * d, e), Pow(a, 2 * e), Pow(d, 8 * e));
    PowAdd(a, 2 * e, 2);
  }

  lemma CandidateParts(a: int, n: int, d: int, x: int, w: int, pa: int, pd: int)
    requires Cong(w, pa * pd) && Cong(n, (a * a) * d) && Cong(x, w * n * d * d * d)
    requires Exponent2523() >= 0 && pd == Pow(d, 8 * Exponent2523()) && Fermat(d)
    ensures Cong(x, pa * (a * a))
  {
    var s := a * a;
    var d3 := d * d * d;
    assert w * n * d * d * d == (w * n) * d3 by { Tail(w * n, d); }
    CongMul(w, pa * pd, n, s * d);
    CongMul(w * n, (pa * pd) * (s * d), d3, d3);
    Collect(pa, pd, s, d, d3);
    LastFactor(d, pd);
    CongMul(pa * s, pa * s, pd * (d * d3), 1);
  }

  lemma Tail(v: int, d: int)
    ensures v * d * d * d == v * (d * d * d)
  {
  }

  lemma LastFactor(d: int, pd: int)
    requires Exponent2523() >= 0 && pd == Pow(d, 8 * Exponent2523()) && Fermat(d)
    ensures Cong(pd * (d * (d * d * d)), 1)
  {
    Exponents();
    SmallPowers(d);
    PowAdd(d, 8 * Exponent2523(), 4);
    assert d * (d * d * d) == (d * d) * (d * d);
  }

  lemma Collect(p: int, q: int, s: int, d: int, t: int)
    ensures ((p * q) * (s * d)) * t == (p * s) * (q * (d * t))
  {
    assert (p * q) * (s * d) == (p * s) * (q * d);
    assert ((p * s) * (q * d)) * t == (p * s) * ((q * d) * t);
    assert (q * d) * t == q * (d * t);
  }

  /** Its square is a^2 or -a^2. */
  lemma CandidateSquared(a: int, n: int, d: int, x: int)
    requires FermatHolds() && Fermat(a) && Fermat(d) && Cong(n, (a * a) * d) && IsCandidate(x, n, d)
    ensures Cong(x * x, a * a) || Cong(x * x, -(a * a))
  {
    var e := Exponent2523();
    Exponents();
    CandidateIs(a, n, d, x);
    var p := Pow(a, 2 * e + 2);
    CongMul(x, p, x, p);
    PowAdd(a, 2 * e + 2, 2 * e + 2);
    var half: nat := (Q - 1) / 2;
    var h := Pow(a, half);
    PowAdd(a, 2, half);
    PowAdd(a, half, half);
    SmallPowers(a);
    RootsOfOne(h);
    if Cong(h, 1) {
      CongMul(a * a, a * a, h, 1);
    } else {
      CongMul(a * a, a * a, h, -1);
    }
  }

  lemma ProductNotZero(a: int, b: int)
    requires FermatHolds() && !Cong(a, 0) && !Cong(b, 0)
    ensures !Cong(a * b, 0)
  {
    assert Fermat(a);
    if Cong(a * b, 0) {
      NoZeroDivisors(a, b);
      assert false;
    }
  }

  /** q is odd: only 0 is its own negative. */
  lemma NegIsOther(n: int)
    requires FermatHolds() && Cong(-n, n)
    ensures Cong(n, 0)
  {
    CongIsMod(2, 0);
    assert Fermat(2);
    CongAdd(-n, n, n, n);
    assert -n + n == 0 && n + n == 2 * n;
    NoZeroDivisors(2, n);
  }

  /** Numbers with the same square differ by a sign. */
  lemma SameSquare(x: int, a: int)
    requires FermatHolds() && Cong(x * x, a * a)
    ensures Cong(x, a) || Cong(x, -a)
  {
    CongAdd(x * x, a * a, a * a, a * a);
    assert (x - a) * (x + a) == x * x - a * a;
    if Cong(x - a, 0) {
      CongAdd(x - a, 0, a, a);
    } else {
      assert Fermat(x - a);
      NoZeroDivisors(x - a, x + a);
      CongAdd(x + a, 0, a, a);
    }
  }

  lemma ZeroCandidate(n: int, d: int, f: int)
    requires Cong(n, 0) && IsCandidate(f, n, d)
    ensures Cong(f, 0)
  {
    var d2 := d * d;
    var w := Pow(d2 * d2 * d2 * n * d, Exponent2523());
    var d3 := d * d * d;
    CongMul(n, 0, w * d3, w * d3);
    assert w * n * d * d * d == n * (w * d3) by { Tail(w * n, d); assert (w * n) * d3 == n * (w * d3); }
    assert 0 * (w * d3) == 0;
  }

  /** c is x^2 d, for x with the square s. */
  lemma Scaled(x: int, s: int, d: int, c: int)
    requires Cong(x * x, s) && Cong(c, (x * x) * d)
    ensures Cong(c, s * d)
  {
    CongMul(x * x, s, d, d);
  }

  /** Multiplying by sqrt(-1) negates the square. */
  lemma TimesRoot(x: int, f: int, i: int, s: int)
    requires Cong(x, f * i) && Cong(i * i, -1) && Cong(f * f, s)
    ensures Cong(x * x, -s)
  {
    CongMul(x, f * i, x, f * i);
    CongMul(f * f, s, i * i, -1);
    assert (f * i) * (f * i) == (f * f) * (i * i) && s * -1 == -s;
  }

  /** Steps 1 to 4 of ge25519_unpackneg_vartime: f is the candidate and c1 its check, x the candidate or
      its product with i = sqrt(-1) and c2 the check of that; b1 and b2 tell whether the checks are
      below 2^255, where the comparison with n is congruence.  If n = a^2 d, then x is accepted exactly
      if no check that holds is above 2^255; and if the first check is not, x is a root. */
  lemma AcceptedExactly(a: int, n: int, d: int, f: int, x: int, i: int, c1: int, c2: int, b1: bool, b2: bool, ok: bool)
    requires FermatHolds() && Cong(n, (a * a) * d) && !Cong(d, 0) && Cong(i * i, -1)
    requires IsCandidate(f, n, d) && Cong(c1, (f * f) * d) && Cong(c2, (x * x) * d)
    requires if Cong(c1, n) && b1 then x == f else Cong(x, f * i)
    requires ok <==> Cong(c2, n) && b2
    requires (Cong(c1, 0) ==> b1) && (Cong(c2, 0) ==> b2)
    ensures ok <==> (Cong(c1, n) ==> b1) && b2
    ensures (Cong(c1, n) ==> b1) ==> Cong(c2, n) && Cong(x * x, a * a)
  {
    if Cong(a, 0) {
      AcceptedZero(a, n, d, f, x, c1, c2, b1, b2, ok);
    } else {
      AcceptedNonzero(a, n, d, f, x, i, c1, c2, b1, b2, ok);
    }
  }

  lemma AcceptedZero(a: int, n: int, d: int, f: int, x: int, c1: int, c2: int, b1: bool, b2: bool, ok: bool)
    requires Cong(a, 0) && Cong(n, (a * a) * d) && IsCandidate(f, n, d) && Cong(c1, (f * f) * d) && Cong(c2, (x * x) * d)
    requires Cong(c1, n) && b1 ==> x == f
    requires ok <==> Cong(c2, n) && b2
    requires (Cong(c1, 0) ==> b1) && (Cong(c2, 0) ==> b2)
    ensures ok && b1 && b2 && Cong(c2, n) && Cong(x * x, a * a)
  {
    CongMul(a, 0, a, 0);
    CongMul(a * a, 0, d, d);
    assert 0 * d == 0;
    ZeroCandidate(n, d, f);
    CongMul(f, 0, f, 0);
    Scaled(f, 0, d, c1);
    Scaled(x, 0, d, c2);
  }

  lemma AcceptedNonzero(a: int, n: int, d: int, f: int, x: int, i: int, c1: int, c2: int, b1: bool, b2: bool, ok: bool)
    requires FermatHolds() && !Cong(a, 0) && Cong(n, (a * a) * d) && !Cong(d, 0) && Cong(i * i, -1)
    requires IsCandidate(f, n, d) && Cong(c1, (f * f) * d) && Cong(c2, (x * x) * d)
    requires if Cong(c1, n) && b1 then x == f else Cong(x, f * i)
    requires ok <==> Cong(c2, n) && b2
    ensures ok <==> (Cong(c1, n) ==> b1) && b2
    ensures (Cong(c1, n) ==> b1) ==> Cong(c2, n) && Cong(x * x, a * a)
  {
    var s := a * a;
    assert Fermat(a) && Fermat(d);
    ProductNotZero(a, a);
    ProductNotZero(s, d);
    Opposite(s, d, n);
    CandidateSquared(a, n, d, f);
    if Cong(f * f, s) {
      Scaled(f, s, d, c1);
      if b1 {
        Scaled(x, s, d, c2);
      } else {
        TimesRoot(x, f, i, s);
        Scaled(x, -s, d, c2);
      }
    } else {
      Scaled(f, -s, d, c1);
      TimesRoot(x, f, i, -s);
      Scaled(x, s, d, c2);
    }
  }

  /** s d and -s d are different residues. */
  lemma Opposite(s: int, d: int, n: int)
    requires FermatHolds() && Cong(n, s * d) && !Cong(s * d, 0)
    ensures !Cong(-s * d, n) && forall c :: Cong(c, -s * d) ==> !Cong(c, n)
  {
    assert -s * d == -(s * d);
    if Cong(-s * d, n) {
      NegIsOther(s * d);
      assert false;
    }
  }
}
