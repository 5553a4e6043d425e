/** ge25519_scalarmult_base (ed25519/ge25519.c) computes s B from a table of multiples of B. */
module BaseMult {
  import opened Bits
  import opened Limbs
  import opened Field
  import opened Fe25519
  import opened Edwards
  import opened Multiples
  import opened Ge25519
  import opened Sc25519
  import opened Windows

  /** fe25519_cmov. */
  method Cmov(r: Fe, x: Fe, b: nat) returns (r': Fe)
    requires b <= 1
    ensures r' == if b == 1 then x else r
  {
    var mask := Sub32(0, b);
    var a := CopyIn(r);
    for i := 0 to 32
      invariant forall k :: 0 <= k < i ==> a[k] == if b == 1 then x[k] else r[k]
      invariant forall k :: i <= k < 32 ==> a[k] == r[k]
    {
      MaskedMoveSelects(mask, a[i], x[i]);
      a[i] := MaskedMove(mask, a[i], x[i]);
    }
    r' := a[..];
  }

  /** cmov_aff. */
  method CmovAff(r: Aff, p: Aff, b: nat) returns (r': Aff)
    requires b <= 1
    ensures r' == if b == 1 then p else r
  {
    var x := Cmov(r.x, p.x, b);
    var y := Cmov(r.y, p.y, b);
    r' := Aff(x, y);
  }

  /** equal, on signed chars compared as unsigned ones. */
  method EqualChar(b: schar, c: schar) returns (r: nat)
    ensures r == if b == c then 1 else 0
  {
    var ub: nat, uc: nat := b % 256, c % 256;
    SameChar(b, c);
    XorZero(ub, uc);
    Pow2Words();
    XorBound(ub, uc, 8);
    r := ZeroFlag(Xor(ub, uc));
  }

  lemma SameChar(b: schar, c: schar)
    ensures b % 256 == c % 256 <==> b == c
  {
  }

  /** `(x - 1) >> 31`. */
  function ZeroFlag(x: u32): (r: nat)
    requires x < 0x8000_0000
    ensures r == if x == 0 then 1 else 0
  {
    Sub32(x, 1) / 0x8000_0000
  }

  /** negative: the sign bit of the value extended to 64 bits. */
  method Negative(b: schar) returns (r: nat)
    ensures r == if b < 0 then 1 else 0
  {
    r := (b % B64) / 0x8000_0000_0000_0000;
  }

  /** `a | b` for truth values. */
  method OrFlags(a: nat, b: nat) returns (r: nat)
    requires a <= 1 && b <= 1
    ensures r == if a == 1 || b == 1 then 1 else 0
  {
    r := Or(a, b);
  }

  /** Entry 5 i + k of ge25519_base_multiples_affine is k 8^i B. */
  ghost predicate BaseTable(table: seq<Aff>, g: Group, base: Point) {
    |table| == 425 && forall i, k :: 0 <= i < 85 && 0 <= k <= 4 ==> BaseEntry(table, g, base, i, k)
  }

  ghost predicate BaseEntry(table: seq<Aff>, g: Group, base: Point, i: nat, k: nat)
    requires |table| == 425 && i < 85 && k <= 4
  {
    RepAff(table[5 * i + k], Scale(g, k * Pow(8, i), base))
  }

  /** The table scan of choose_t: entry |b|. */
  method Scan(table: seq<Aff>, pos: nat, b: schar) returns (t: Aff)
    requires |table| == 425 && pos < 85 && -4 <= b <= 3
    ensures t == table[5 * pos + (if b < 0 then -b else b)]
  {
    t := table[5 * pos];
    var f := IsPlusMinus(b, 1);
    t := CmovAff(t, table[5 * pos + 1], f);
    f := IsPlusMinus(b, 2);
    t := CmovAff(t, table[5 * pos + 2], f);
    f := IsPlusMinus(b, 3);
    t := CmovAff(t, table[5 * pos + 3], f);
    f := EqualChar(b, -4);
    t := CmovAff(t, table[5 * pos + 4], f);
  }

  /** `equal(b, k) | equal(b, -k)`. */
  method IsPlusMinus(b: schar, k: schar) returns (r: nat)
    requires 0 < k <= 3
    ensures r == if b == k || b == -k then 1 else 0
  {
    var plus := EqualChar(b, k);
    var minus := EqualChar(b, -k);
    r := OrFlags(plus, minus);
  }

  /** choose_t: b 8^pos B in affine coordinates. */
  method ChooseT(table: seq<Aff>, pos: nat, b: schar, ghost g: Group, ghost base: Point) returns (t: Aff)
    requires g.EdwardsGroup() && OnCurve(base) && BaseTable(table, g, base) && pos < 85 && -4 <= b <= 3
    ensures RepAff(t, Scale(g, b * Pow(8, pos), base))
  {
    var e := Scan(table, pos, b);
    ghost var k := if b < 0 then -b else b;
    assert BaseEntry(table, g, base, pos, k);
    var v := Neg(e.x);
    var n := Negative(b);
    var x := Cmov(e.x, v, n);
    t := Aff(x, e.y);
    if b < 0 {
      NegatedEntry(e, t, k * Pow(8, pos), g, base);
      assert b * Pow(8, pos) == -(k * Pow(8, pos));
    }
  }

  lemma NegatedEntry(e: Aff, t: Aff, n: int, g: Group, base: Point)
    requires g.EdwardsGroup() && OnCurve(base) && RepAff(e, Scale(g, n, base))
    requires Loose(t.x) && Cong(Value(t.x), -Value(e.x)) && t.y == e.y
    ensures RepAff(t, Scale(g, -n, base))
  {
    var p := Scale(g, n, base);
    NegIsScale(g, n, base);
    NegX(p.x);
    CongAdd(0, 0, Value(e.x), p.x);
  }

  /** The affine first entry in extended coordinates. */
  method FromAffine(t: Aff, ghost p: Point) returns (r: P3)
    requires RepAff(t, p)
    ensures Rep3(r, p)
  {
    var one: Fe := seq(32, i => if i == 0 then 1 else 0);
    ghost var zero: Fe := seq(32, _ => 0);
    VZero(zero, 32);
    VUpdate(zero, one, 0, 32);
    assert P(0) == 1;
    var xy := Mul(t.x, t.y);
    AffineIsProjective(t, p, Value(xy));
    r := P3(t.x, t.y, one, xy);
  }

  /** ge25519_scalarmult_base. */
  method ScalarMultBase(table: seq<Aff>, s: seq<u32>, ghost g: Group, ghost base: Point) returns (r: P3)
    requires g.EdwardsGroup() && OnCurve(base) && BaseTable(table, g, base)
    requires |s| == 32 && AllBytes(s) && Value(s) < M
    ensures Rep3(r, Scale(g, Value(s), base))
  {
    var w := Window3(s);
    var b := w[..];
    var t := ChooseT(table, 0, b[0], g, base);
    r := FromAffine(t, Scale(g, b[0] * Pow(8, 0), base));
    for i := 1 to 85
      invariant Rep3(r, Scale(g, Digits(8, b, i), base))
    {
      t := ChooseT(table, i, b[i], g, base);
      ghost var x, y := Digits(8, b, i), b[i] * Pow(8, i);
      SumOfMultiples(g, x, y, base);
      r := MixAdd2(r, t, Scale(g, x, base), Scale(g, y, base), Scale(g, x + y, base));
    }
  }

  lemma SumOfMultiples(g: Group, x: int, y: int, base: Point)
    requires g.EdwardsGroup() && OnCurve(base)
    ensures IsSum(Scale(g, x, base), Scale(g, y, base), Scale(g, x + y, base))
  {
    ScaleAdd(g, x, y, base);
    ScaleOnCurve(g, x, base); ScaleOnCurve(g, y, base);
    Closed(g, Scale(g, x, base), Scale(g, y, base));
  }
}
