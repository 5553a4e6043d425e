/** The addition chains fe25519_invert and fe25519_pow2523 (ed25519/fe25519.c).

    Exponents are carried as ghost numbers; a block of squarings takes the exponent 2^a - 2^b to
    2^(a+1) - 2^(b+1). */
module FeChains {
  import opened Bits
  import opened Limbs
  import opened Field
  import opened Fe25519

  /** f holds x^e. */
  ghost predicate Holds(f: Fe, x: int, e: nat) {
    Loose(f) && IsPower(Value(f), x, e)
  }

  /** Multiplication, with the exponents of its operands. */
  method MulP(f: Fe, g: Fe, ghost x: int, ghost a: nat, ghost b: nat) returns (r: Fe)
    requires Holds(f, x, a) && Holds(g, x, b)
    ensures Holds(r, x, a + b)
  {
    r := Mul(f, g);
    PowerProduct(Value(f), Value(g), Value(r), x, a, b);
  }

  method SquareP(f: Fe, ghost x: int, ghost a: nat) returns (r: Fe)
    requires Holds(f, x, a)
    ensures Holds(r, x, 2 * a)
  {
    r := Square(f);
    PowerProduct(Value(f), Value(f), Value(r), x, a, a);
  }

  /** The exponent 2^(n + k) - 2^k. */
  ghost function Run(n: nat, k: nat): nat {
    if k == 0 then Pow2(n) - 1 else 2 * Run(n, k - 1)
  }

  lemma {:induction false} RunValue(n: nat, k: nat)
    ensures Run(n, k) == Pow2(n + k) - Pow2(k)
  {
    if k > 0 {
      RunValue(n, k - 1);
    }
  }

  lemma RunJoin(n: nat, k: nat)
    ensures Run(n, k) + Run(k, 0) == Run(n + k, 0)
  {
    RunValue(n, k);
  }

  /** One squaring inside a run. */
  method SquareRun(f: Fe, ghost x: int, ghost n: nat, ghost k: nat) returns (r: Fe)
    requires Holds(f, x, Run(n, k))
    ensures Holds(r, x, Run(n, k + 1))
  {
    r := SquareP(f, x, Run(n, k));
  }

  /** The multiplication that ends a run. */
  method JoinRun(f: Fe, z: Fe, ghost x: int, ghost n: nat, ghost k: nat) returns (r: Fe)
    requires Holds(f, x, Run(n, k)) && Holds(z, x, Run(k, 0))
    ensures Holds(r, x, Run(n + k, 0))
  {
    RunJoin(n, k);
    r := MulP(f, z, x, Run(n, k), Run(k, 0));
  }

  /** The first block of both chains: x^2, x^9, x^11 and x^31. */
  method Start(x: Fe) returns (z2: Fe, z9: Fe, z11: Fe, z2_5_0: Fe)
    requires Loose(x)
    ensures Holds(z11, Value(x), 11) && Holds(z2_5_0, Value(x), Run(5, 0))
  {
    ghost var v := Value(x);
    assert Holds(x, v, 1) by { assert Pow(v, 1) == v * Pow(v, 0); }
    z2 := SquareP(x, v, 1);
    var t := SquareP(z2, v, 2);
    t := SquareP(t, v, 4);
    z9 := MulP(t, x, v, 8, 1);
    z11 := MulP(z9, z2, v, 9, 2);
    t := SquareP(z11, v, 11);
    z2_5_0 := MulP(t, z9, v, 22, 9);
    assert Run(5, 0) == 31;
  }

  /** fe25519_pow2523: k squarings of f one by one, then multiplication by z. */
  method Block(f: Fe, z: Fe, k: nat, ghost x: int, ghost n: nat) returns (r: Fe)
    requires k >= 1 && Holds(f, x, Run(n, 0)) && Holds(z, x, Run(k, 0))
    ensures Holds(r, x, Run(n + k, 0))
  {
    var t := SquareRun(f, x, n, 0);
    for i := 1 to k
      invariant Holds(t, x, Run(n, i))
    {
      t := SquareRun(t, x, n, i);
    }
    r := JoinRun(t, z, x, n, k);
  }

  /** fe25519_invert: the same with two squarings a round, for k = 2h. */
  method BlockOfPairs(f: Fe, z: Fe, h: nat, ghost k: nat, ghost x: int, ghost n: nat) returns (r: Fe)
    requires k == 2 * h >= 2 && Holds(f, x, Run(n, 0)) && Holds(z, x, Run(k, 0))
    ensures Holds(r, x, Run(n + k, 0))
  {
    var t1 := Pair(f, x, n, 0);
    for j := 1 to h
      invariant Holds(t1, x, Run(n, 2 * j))
    {
      t1 := Pair(t1, x, n, 2 * j);
    }
    r := JoinRun(t1, z, x, n, k);
  }

  method Pair(t1: Fe, ghost x: int, ghost n: nat, ghost i: nat) returns (r: Fe)
    requires Holds(t1, x, Run(n, i))
    ensures Holds(r, x, Run(n, i + 2))
  {
    var t0 := SquareRun(t1, x, n, i);
    r := SquareRun(t0, x, n, i + 1);
  }

  ghost function Exponent2523(): int {
    Pow2(252) - 3
  }

  ghost function ExponentInvert(): int {
    Pow2(255) - 21
  }

  lemma FinalExponents()
    ensures Run(250, 2) + 1 == Exponent2523() && Run(250, 5) + 11 == ExponentInvert()
  {
    RunValue(250, 2);
    RunValue(250, 5);
    assert Pow2(2) == 4 && Pow2(5) == 32;
  }

  /** fe25519_pow2523 as far as the exponent 2^50 - 1. */
  method To50(x: Fe) returns (z2_50_0: Fe)
    requires Loose(x)
    ensures Holds(z2_50_0, Value(x), Run(50, 0))
  {
    ghost var v := Value(x);
    var z2, z9, z11, z2_5_0 := Start(x);
    var z2_10_0 := Block(z2_5_0, z2_5_0, 5, v, 5);
    var z2_20_0 := Block(z2_10_0, z2_10_0, 10, v, 10);
    var t := Block(z2_20_0, z2_20_0, 20, v, 20);
    z2_50_0 := Block(t, z2_10_0, 10, v, 40);
  }

  /** fe25519_pow2523 from 2^50 - 1 to 2^250 - 1. */
  method To250(z2_50_0: Fe, ghost v: int) returns (t: Fe)
    requires Holds(z2_50_0, v, Run(50, 0))
    ensures Holds(t, v, Run(250, 0))
  {
    var z2_100_0 := Block(z2_50_0, z2_50_0, 50, v, 50);
    t := Block(z2_100_0, z2_100_0, 100, v, 100);
    t := Block(t, z2_50_0, 50, v, 200);
  }

  /** fe25519_pow2523: x^(2^252 - 3). */
  method Pow2523(x: Fe) returns (r: Fe)
    requires Loose(x)
    ensures Loose(r) && Exponent2523() >= 0 && IsPower(Value(r), Value(x), Exponent2523())
  {
    ghost var v := Value(x);
    var z2_50_0 := To50(x);
    var t := To250(z2_50_0, v);
    t := SquareRun(t, v, 250, 0);
    t := SquareRun(t, v, 250, 1);
    assert Holds(x, v, 1) by { assert Pow(v, 1) == v * Pow(v, 0); }
    r := MulP(t, x, v, Run(250, 2), 1);
    FinalExponents();
  }

  /** fe25519_invert as far as the exponent 2^50 - 1, keeping x^11. */
  method InvertTo50(x: Fe) returns (z2_50_0: Fe, z11: Fe)
    requires Loose(x)
    ensures Holds(z2_50_0, Value(x), Run(50, 0)) && Holds(z11, Value(x), 11)
  {
    ghost var v := Value(x);
    var z2, z9, z2_5_0;
    z2, z9, z11, z2_5_0 := Start(x);
    var z2_10_0 := FiveSquarings(z2_5_0, v);
    var z2_20_0 := BlockOfPairs(z2_10_0, z2_10_0, 5, 10, v, 10);
    var t0 := BlockOfPairs(z2_20_0, z2_20_0, 10, 20, v, 20);
    z2_50_0 := BlockOfPairs(t0, z2_10_0, 5, 10, v, 40);
  }

  method FiveSquarings(z2_5_0: Fe, ghost v: int) returns (z2_10_0: Fe)
    requires Holds(z2_5_0, v, Run(5, 0))
    ensures Holds(z2_10_0, v, Run(10, 0))
  {
    var t0 := SquareRun(z2_5_0, v, 5, 0);
    var t1 := SquareRun(t0, v, 5, 1);
    t0 := SquareRun(t1, v, 5, 2);
    t1 := SquareRun(t0, v, 5, 3);
    t0 := SquareRun(t1, v, 5, 4);
    z2_10_0 := JoinRun(t0, z2_5_0, v, 5, 5);
  }

  method InvertTo250(z2_50_0: Fe, ghost v: int) returns (t0: Fe)
    requires Holds(z2_50_0, v, Run(50, 0))
    ensures Holds(t0, v, Run(250, 0))
  {
    var z2_100_0 := BlockOfPairs(z2_50_0, z2_50_0, 25, 50, v, 50);
    var t1 := BlockOfPairs(z2_100_0, z2_100_0, 50, 100, v, 100);
    t0 := BlockOfPairs(t1, z2_50_0, 25, 50, v, 200);
  }

  /** fe25519_invert: x^(2^255 - 21). */
  method Invert(x: Fe) returns (r: Fe)
    requires Loose(x)
    ensures Loose(r) && ExponentInvert() >= 0 && IsPower(Value(r), Value(x), ExponentInvert())
  {
    ghost var v := Value(x);
    var z2_50_0, z11 := InvertTo50(x);
    var t0 := InvertTo250(z2_50_0, v);
    var t1 := SquareRun(t0, v, 250, 0);
    t0 := SquareRun(t1, v, 250, 1);
    t1 := SquareRun(t0, v, 250, 2);
    t0 := SquareRun(t1, v, 250, 3);
    t1 := SquareRun(t0, v, 250, 4);
    r := MulP(t1, z11, v, Run(250, 5), 11);
    FinalExponents();
  }
}
