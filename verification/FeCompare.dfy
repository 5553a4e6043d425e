/** Comparing and packing field elements (ed25519/fe25519.c). */
module FeCompare {
  import opened Bits
  import opened Limbs
  import opened Field
  import opened Fe25519

  /** Freezing never changes the residue. */
  lemma FrozenCong(v: int)
    ensures Cong(Frozen(v), v)
  {
    CongShift(v, Frozen(v), if Frozen(v) == v then 0 else 1);
  }

  /** Below 2^255 a frozen number is the canonical residue. */
  lemma FrozenCanonical(v: int)
    requires 0 <= v < P255
    ensures Frozen(v) == v % Q
  {
    DivModUnique(v, Q, if v >= Q then 1 else 0, Frozen(v));
  }

  /** fe25519_pack: the frozen limbs as bytes. */
  method Pack(x: Fe) returns (r: seq<byte>)
    requires Loose(x)
    ensures |r| == 32 && Value(r) == Frozen(Value(x))
  {
    var y := CopyIn(x);
    Freeze(y);
    r := seq(32, i requires 0 <= i < 32 && AllBytes(y[..]) reads y => y[..][i]);
    assert r == y[..];
  }

  /** fe25519_unpack: the top bit is dropped. */
  method Unpack(x: seq<byte>) returns (r: Fe)
    requires |x| == 32
    ensures Below(r) && Value(r) == Value(x) % P255
  {
    var a := CopyIn(x);
    a[31] := Mask(a[31], 7, 128);
    r := a[..];
    WithoutTopBit(x, r);
  }

  lemma WithoutTopBit(x: seq<int>, r: seq<int>)
    requires |x| == 32 && AllBytes(x) && r == x[31 := x[31] % 128]
    ensures Value(r) == Value(x) % P255
  {
    VUpdate(x, r, 31, 32);
    VBound(r, 31);
    assert V(r, 32) == V(r, 31) + r[31] * P(31);
    TopBit(Value(x), Value(r), V(r, 31), x[31], r[31], P(31));
  }

  /** Dropping bit 255. */
  lemma TopBit(x: int, r: int, low: int, a: int, b: int, p: int)
    requires p == P(31) && 0 <= low < p && a >= 0 && b == a % 128 && r == low + b * p && r == x + (b - a) * p
    ensures r == x % P255
  {
    PLiterals();
    DivModUnique(x, P255, a / 128, r);
  }

  /** fe25519_iseq_vartime. */
  method IsEqVartime(x: Fe, y: Fe) returns (eq: bool)
    requires Loose(x) && Loose(y)
    ensures eq <==> Frozen(Value(x)) == Frozen(Value(y))
  {
    var s := CopyIn(x);
    var t := CopyIn(y);
    Freeze(s);
    Freeze(t);
    for i := 0 to 32
      invariant forall k :: 0 <= k < i ==> s[k] == t[k]
    {
      if s[i] != t[i] {
        if Value(s[..]) == Value(t[..]) {
          VInjective(s[..], t[..], 32);
        }
        return false;
      }
    }
    VSame(s[..], t[..], 32);
    return true;
  }

  lemma LooseBound(x: Fe)
    requires Loose(x)
    ensures 0 <= Value(x) < 129 * P(31)
    ensures Below(x) <==> Value(x) < P255
  {
    VBound(x, 32);
    TopLimb(x);
    PLiterals();
  }

  /** What the comparison decides: congruence, except between one number below 2^255 and one above. */
  lemma EqualityExactly(v: int, w: int)
    requires 0 <= v < 129 * P(31) && 0 <= w < 129 * P(31)
    ensures Frozen(v) == Frozen(w) <==> Cong(v, w) && (v < P255 <==> w < P255)
  {
    PLiterals();
    FrozenCong(v);
    FrozenCong(w);
    if Cong(v, w) {
      var k := CongWitness(Frozen(v), Frozen(w));
      assert -2 < k < 2;
    }
  }

  /** A number of one limb. */
  method Small(c: byte) returns (x: Fe)
    ensures Loose(x) && Value(x) == c
  {
    x := seq(32, i => if i == 0 then c else 0);
    ghost var zero: Fe := seq(32, _ => 0);
    VZero(zero, 32);
    VUpdate(zero, x, 0, 32);
    assert P(0) == 1;
  }

  /** A product with a residue from 19 up to what reduce_mul folds in comes out above 2^255. */
  lemma ProductWraps(r: Fe, t: int)
    requires Loose(r) && Cong(Value(r), t) && 19 <= t < Value(r) && t < EXCESS
    ensures Value(r) == t + Q && !Below(r)
  {
    LooseBound(r);
    PLiterals();
    var k := CongWitness(Value(r), t);
    assert k == 1;
  }

  /** The residues of which a product can be above 2^255. */
  predicate Wraps(t: int) {
    19 <= t < EXCESS + 19
  }

  /** Any other product is below 2^255. */
  lemma ProductBelow(r: Fe, t: int)
    requires Loose(r) && Value(r) < P255 + EXCESS && 0 <= t < Q && Cong(Value(r), t) && !Wraps(t)
    ensures Below(r)
  {
    LooseBound(r);
    if !Below(r) {
      FrozenOf(Value(r), t);
      assert false;
    }
  }

  /** A residue decides limb 31, unless it is close to 0. */
  lemma TopOfResidue(x: Fe, n: int, top: int)
    requires Loose(x) && Cong(Value(x), n) && top * P(31) <= n < (top + 1) * P(31) && 2 <= top <= 127 && n < Q
    ensures x[31] == top
  {
    LooseBound(x);
    PLiterals();
    FrozenOf(Value(x), n);
    TopLimb(x);
  }

  /** The limbs of a number. */
  function Digits(n: nat, k: nat): (r: seq<u32>)
    ensures |r| == k
  {
    if k == 0 then [] else [n % 256] + Digits(n / 256, k - 1)
  }

  lemma {:induction false} DigitsValue(n: nat, k: nat)
    requires n < P(k)
    ensures AllBytes(Digits(n, k)) && Value(Digits(n, k)) == n
  {
    if k > 0 {
      DigitsValue(n / 256, k - 1);
      var r := Digits(n, k);
      assert r[1..] == Digits(n / 256, k - 1);
      VSplit(r, 1, k);
      assert V(r, 1) == r[0] && P(1) == 256;
    }
  }

  lemma LooseIfSmall(x: Fe)
    requires AllBytes(x) && Value(x) < P255
    ensures Loose(x)
  {
    PLiterals();
    TopLimb(x);
  }

  /** The limbs of a number just below q. */
  lemma TopOfNegated(x: Fe, n: int)
    requires Below(x) && Cong(Value(x), -n) && 1 <= n < EXCESS
    ensures Value(x) == Q - n && x[31] == 127
  {
    LooseBound(x);
    PLiterals();
    var k := CongWitness(Value(x), -n);
    assert k == 1;
    TopLimb(x);
  }

  /** Multiplication does leave limb 31 at 128, and the comparison then fails: the product of -1 and
      -19 comes out as 2^255, which is congruent to 19 and not equal to it. */
  method EqualityFailsAbove255() returns (r: Fe, eq: bool)
    ensures Loose(r) && Value(r) == P255 && Cong(Value(r), 19) && !eq
  {
    var one := Small(1);
    var nineteen := Small(19);
    var x := Neg(one);
    var y := Neg(nineteen);
    TopOfNegated(x, 1);
    TopOfNegated(y, 19);
    r := Mul(x, y);
    LeastProductIs(x, y);
    CongMul(Value(x), -1, Value(y), -19);
    ProductWraps(r, 19);
    eq := IsEqVartime(r, nineteen);
  }

  /** fe25519_iszero. */
  method IsZero(x: Fe) returns (r: bool)
    requires Loose(x)
    ensures r <==> Frozen(Value(x)) == 0
  {
    var a := CopyIn(x);
    Freeze(a);
    var t := a[..];
    var m := Equal(t[0], 0);
    for i := 1 to 32
      invariant m == if forall k :: 0 <= k < i ==> t[k] == 0 then 1 else 0
    {
      m := AndFlags(m, Equal(t[i], 0));
    }
    ghost var zero: Fe := seq(32, _ => 0);
    VZero(zero, 32);
    if Value(t) == 0 {
      VInjective(t, zero, 32);
    }
    if m == 1 {
      VSame(t, zero, 32);
    }
    r := m == 1;
  }

  /** fe25519_getparity. */
  method GetParity(x: Fe) returns (r: nat)
    requires Loose(x)
    ensures r == Frozen(Value(x)) % 2
  {
    var t := CopyIn(x);
    Freeze(t);
    assert Pow2(1) == 2;
    r := Mask(t[0], 1, 2);
    LowLimbParity(t[..]);
  }

  lemma LowLimbParity(s: seq<int>)
    requires |s| == 32
    ensures Value(s) % 2 == s[0] % 2
  {
    VSplit(s, 1, 32);
    assert V(s, 1) == s[0] * P(0) && P(1) == 256;
    EvenRest(s[0], V(s[1..], 31), Value(s));
  }

  lemma EvenRest(low: int, rest: int, v: int)
    requires v == low + 256 * rest
    ensures v % 2 == low % 2
  {
    DivModUnique(v, 2, low / 2 + 128 * rest, low % 2);
  }

  /** Frozen numbers are canonical below 2^255, and too large by 2^255-19 above. */
  lemma FrozenOf(v: int, x: int)
    requires 0 <= v < 129 * P(31) && 0 <= x < Q && Cong(v, x)
    ensures Frozen(v) == if v < P255 then x else x + Q
    ensures v >= P255 ==> x >= 19
  {
    PLiterals();
    var k := CongWitness(v, x);
    assert k == 0 || k == 1;
  }

  lemma ParityOf(f: int, x: int, below: bool)
    requires f == if below then x else x + Q
    ensures f % 2 == if below then x % 2 else 1 - x % 2
  {
  }

  lemma TopOfNumber(low: int, top: int, v: int, p: int)
    requires p == P(31) && 0 <= low < p && 0 <= top < 256 && v == low + top * p
    ensures v / P255 == top / 128 && v % P255 == low + top % 128 * p
  {
    PLiterals();
    DivModUnique(v, P255, top / 128, low + top % 128 * p);
  }
}
