/** ge25519_double_scalarmult_vartime (ed25519/ge25519.c) computes s1 P1 + s2 P2. */
module DoubleScalarMult {
  import opened Bits
  import opened Limbs
  import opened Field
  import opened Fe25519
  import opened Edwards
  import opened Multiples
  import opened Ge25519
  import opened Windows

  /** The two points and the group they live in. */
  ghost predicate Setting(g: Group, p: Point, q: Point) {
    g.EdwardsGroup() && OnCurve(p) && OnCurve(q)
  }

  /** setneutral. */
  method SetNeutral(ghost g: Group) returns (r: P3)
    ensures Rep3(r, g.zero)
  {
    var zero: Fe := seq(32, _ => 0);
    var one: Fe := zero[0 := 1];
    VZero(zero, 32);
    VUpdate(zero, one, 0, 32);
    assert P(0) == 1;
    r := P3(zero, one, one, zero);
    assert IsInverse(1, 1);
  }

  /** One table entry as the sum of two others: add_p1p1 then p1p1_to_p3. */
  method Sum(c1: P3, c2: P3, ghost g: Group, ghost p: Point, ghost q: Point,
             ghost a1: int, ghost b1: int, ghost a2: int, ghost b2: int) returns (r: P3)
    requires Setting(g, p, q) && Rep3(c1, Combine(g, a1, p, b1, q)) && Rep3(c2, Combine(g, a2, p, b2, q))
    ensures Rep3(r, Combine(g, a1 + a2, p, b1 + b2, q))
  {
    ghost var x, y := Combine(g, a1, p, b1, q), Combine(g, a2, p, b2, q);
    CombineOnCurve(g, a1, p, b1, q); CombineOnCurve(g, a2, p, b2, q);
    Closed(g, x, y);
    CombineAdd(g, a1, b1, a2, b2, p, q);
    var t := AddP1P1(c1, c2, x, y, g.add(x, y));
    r := ToP3(t, g.add(x, y));
  }

  /** dbl_p1p1 on the first three coordinates; t is not read. */
  method Double(c: P3, ghost g: Group, ghost p: Point, ghost q: Point, ghost a: int, ghost b: int) returns (r: P1P1)
    requires Setting(g, p, q) && Rep2(P2(c.x, c.y, c.z), Combine(g, a, p, b, q))
    ensures Rep11(r, Combine(g, 2 * a, p, 2 * b, q))
  {
    ghost var x := Combine(g, a, p, b, q);
    CombineOnCurve(g, a, p, b, q);
    Closed(g, x, x);
    CombineAdd(g, a, b, a, b, p, q);
    r := DblP1P1(P2(c.x, c.y, c.z), x, g.add(x, x));
  }

  /** pre[k] = (k mod 4) P1 + (k div 4) P2. */
  ghost predicate Table(pre: seq<P3>, g: Group, p: Point, q: Point) {
    |pre| == 16 && forall i, j :: 0 <= i < 4 && 0 <= j < 4 ==> Entry(pre, g, p, q, i, j)
  }

  ghost predicate Entry(pre: seq<P3>, g: Group, p: Point, q: Point, i: nat, j: nat)
    requires |pre| == 16 && i < 4 && j < 4
  {
    Rep3(pre[i + 4 * j], Combine(g, i, p, j, q))
  }

  lemma CombineUnits(g: Group, p: Point, q: Point)
    requires Setting(g, p, q)
    ensures Combine(g, 0, p, 0, q) == g.zero && Combine(g, 1, p, 0, q) == p && Combine(g, 0, p, 1, q) == q
  {
    ZeroOnCurve();
    Neutral(g, g.zero); Neutral(g, p); Neutral(g, q);
    Commute(g, g.zero, p); Commute(g, g.zero, q);
    assert Times(g, 1, p) == g.add(Times(g, 0, p), p) && Times(g, 1, q) == g.add(Times(g, 0, q), q);
  }

  /** The precomputation, in the order of the source: entries 0 to 7, then 8 to 15. */
  method PrecomputeLow(c1: P3, c2: P3, ghost g: Group, ghost p: Point, ghost q: Point)
    returns (e0: P3, e2: P3, e3: P3, e5: P3, e6: P3, e7: P3)
    requires Setting(g, p, q) && Rep3(c1, Combine(g, 1, p, 0, q)) && Rep3(c2, Combine(g, 0, p, 1, q))
    ensures Rep3(e0, Combine(g, 0, p, 0, q)) && Rep3(e2, Combine(g, 2, p, 0, q)) && Rep3(e3, Combine(g, 3, p, 0, q))
    ensures Rep3(e5, Combine(g, 1, p, 1, q)) && Rep3(e6, Combine(g, 2, p, 1, q)) && Rep3(e7, Combine(g, 3, p, 1, q))
  {
    CombineUnits(g, p, q);
    e0 := SetNeutral(g);
    e2 := DoubleToP3(c1, g, p, q, 1, 0);
    e3 := Sum(c1, e2, g, p, q, 1, 0, 2, 0);
    e5 := Sum(c1, c2, g, p, q, 1, 0, 0, 1);
    e6 := Sum(e2, c2, g, p, q, 2, 0, 0, 1);
    e7 := Sum(e3, c2, g, p, q, 3, 0, 0, 1);
  }

  method PrecomputeHigh(e1: P3, e2: P3, e3: P3, e4: P3, e5: P3, ghost g: Group, ghost p: Point, ghost q: Point)
    returns (e8: P3, e9: P3, e10: P3, e11: P3, e12: P3, e13: P3, e14: P3, e15: P3)
    requires Setting(g, p, q) && Rep3(e1, Combine(g, 1, p, 0, q)) && Rep3(e2, Combine(g, 2, p, 0, q))
    requires Rep3(e3, Combine(g, 3, p, 0, q)) && Rep3(e4, Combine(g, 0, p, 1, q)) && Rep3(e5, Combine(g, 1, p, 1, q))
    ensures Rep3(e8, Combine(g, 0, p, 2, q)) && Rep3(e9, Combine(g, 1, p, 2, q))
    ensures Rep3(e10, Combine(g, 2, p, 2, q)) && Rep3(e11, Combine(g, 3, p, 2, q))
    ensures Rep3(e12, Combine(g, 0, p, 3, q)) && Rep3(e13, Combine(g, 1, p, 3, q))
    ensures Rep3(e14, Combine(g, 2, p, 3, q)) && Rep3(e15, Combine(g, 3, p, 3, q))
  {
    e8 := DoubleToP3(e4, g, p, q, 0, 1);
    e9 := Sum(e1, e8, g, p, q, 1, 0, 0, 2);
    e10 := DoubleToP3(e5, g, p, q, 1, 1);
    e11 := Sum(e3, e8, g, p, q, 3, 0, 0, 2);
    e12, e13, e14, e15 := PrecomputeLast(e1, e2, e3, e4, e8, g, p, q);
  }

  method PrecomputeLast(e1: P3, e2: P3, e3: P3, e4: P3, e8: P3, ghost g: Group, ghost p: Point, ghost q: Point)
    returns (e12: P3, e13: P3, e14: P3, e15: P3)
    requires Setting(g, p, q) && Rep3(e1, Combine(g, 1, p, 0, q)) && Rep3(e2, Combine(g, 2, p, 0, q))
    requires Rep3(e3, Combine(g, 3, p, 0, q)) && Rep3(e4, Combine(g, 0, p, 1, q)) && Rep3(e8, Combine(g, 0, p, 2, q))
    ensures Rep3(e12, Combine(g, 0, p, 3, q)) && Rep3(e13, Combine(g, 1, p, 3, q))
    ensures Rep3(e14, Combine(g, 2, p, 3, q)) && Rep3(e15, Combine(g, 3, p, 3, q))
  {
    e12 := Sum(e4, e8, g, p, q, 0, 1, 0, 2);
    e13 := Sum(e1, e12, g, p, q, 1, 0, 0, 3);
    e14 := Sum(e2, e12, g, p, q, 2, 0, 0, 3);
    e15 := Sum(e3, e12, g, p, q, 3, 0, 0, 3);
  }

  method DoubleToP3(c: P3, ghost g: Group, ghost p: Point, ghost q: Point, ghost a: int, ghost b: int) returns (r: P3)
    requires Setting(g, p, q) && Rep3(c, Combine(g, a, p, b, q))
    ensures Rep3(r, Combine(g, 2 * a, p, 2 * b, q))
  {
    var t := Double(c, g, p, q, a, b);
    r := ToP3(t, Combine(g, 2 * a, p, 2 * b, q));
  }

  method Precompute(c1: P3, c2: P3, ghost g: Group, ghost p: Point, ghost q: Point) returns (pre: seq<P3>)
    requires Setting(g, p, q) && Rep3(c1, p) && Rep3(c2, q)
    ensures Table(pre, g, p, q)
  {
    CombineUnits(g, p, q);
    var e0, e2, e3, e5, e6, e7 := PrecomputeLow(c1, c2, g, p, q);
    var e8, e9, e10, e11, e12, e13, e14, e15 := PrecomputeHigh(c1, e2, e3, c2, e5, g, p, q);
    pre := [e0, c1, e2, e3, c2, e5, e6, e7, e8, e9, e10, e11, e12, e13, e14, e15];
    forall i, j | 0 <= i < 4 && 0 <= j < 4 ensures Entry(pre, g, p, q, i, j) {
      var k := i + 4 * j;
      assert i == 0 || i == 1 || i == 2 || i == 3;
      assert j == 0 || j == 1 || j == 2 || j == 3;
    }
  }

  /** One digit of the main loop.  Between doublings only x, y and z are kept up to date; t is
      recomputed before it is read. */
  method Step(r: P3, pre: seq<P3>, digit: nat, last: bool, ghost g: Group, ghost p: Point, ghost q: Point,
              ghost a: int, ghost b: int, ghost i: nat, ghost j: nat) returns (r': P3)
    requires Setting(g, p, q) && Table(pre, g, p, q) && i < 4 && j < 4 && digit == i + 4 * j
    requires Rep2(P2(r.x, r.y, r.z), Combine(g, a, p, b, q))
    ensures Rep2(P2(r'.x, r'.y, r'.z), Combine(g, 4 * a + i, p, 4 * b + j, q))
    ensures last ==> Rep3(r', Combine(g, 4 * a + i, p, 4 * b + j, q))
  {
    r' := r;
    var t := Double(r', g, p, q, a, b);
    var half := ToP2(t, Combine(g, 2 * a, p, 2 * b, q));
    r' := P3(half.x, half.y, half.z, r'.t);
    t := Double(r', g, p, q, 2 * a, 2 * b);
    ghost var s := Combine(g, 2 * (2 * a), p, 2 * (2 * b), q);
    if digit != 0 {
      r' := ToP3(t, s);
      t, s := AddEntry(r', pre, digit, g, p, q, 4 * a, 4 * b, i, j);
    }
    if !last {
      half := ToP2(t, s);
      r' := P3(half.x, half.y, half.z, r'.t);
    } else {
      r' := ToP3(t, s);
    }
  }

  method AddEntry(r: P3, pre: seq<P3>, digit: nat, ghost g: Group, ghost p: Point, ghost q: Point,
                  ghost a: int, ghost b: int, ghost i: nat, ghost j: nat) returns (t: P1P1, ghost s: Point)
    requires Setting(g, p, q) && Table(pre, g, p, q) && i < 4 && j < 4 && digit == i + 4 * j
    requires Rep3(r, Combine(g, a, p, b, q))
    ensures s == Combine(g, a + i, p, b + j, q) && Rep11(t, s)
  {
    ghost var x, y := Combine(g, a, p, b, q), Combine(g, i, p, j, q);
    CombineOnCurve(g, a, p, b, q); CombineOnCurve(g, i, p, j, q);
    Closed(g, x, y);
    CombineAdd(g, a, b, i, j, p, q);
    assert Entry(pre, g, p, q, i, j);
    s := g.add(x, y);
    t := AddP1P1(r, pre[digit], x, y, s);
  }

  /** a holds the digits from position i up. */
  ghost predicate Consumed(d: seq<int>, i: nat, a: int, v: int) {
    i <= |d| && Digits(4, d, i) + Pow(4, i) * a == v
  }

  lemma ConsumeDigit(d: seq<int>, i: nat, a: int, v: int)
    requires i < |d| && Consumed(d, i + 1, a, v)
    ensures Consumed(d, i, 4 * a + d[i], v)
  {
    OneDigit(Digits(4, d, i), d[i], Pow(4, i), a);
  }

  lemma OneDigit(low: int, x: int, p: int, a: int)
    ensures (low + x * p) + (4 * p) * a == low + p * (4 * a + x)
  {
  }

  /** ge25519_double_scalarmult_vartime, for scalars below 2^254. */
  method DoubleScalarMultVartime(c1: P3, s1: seq<u32>, c2: P3, s2: seq<u32>,
                                 ghost g: Group, ghost p: Point, ghost q: Point) returns (r: P3)
    requires Setting(g, p, q) && Rep3(c1, p) && Rep3(c2, q)
    requires |s1| == |s2| == 32 && AllBytes(s1) && AllBytes(s2) && s1[31] <= 63 && s2[31] <= 63
    ensures Rep3(r, Combine(g, Value(s1), p, Value(s2), q))
  {
    var pre := Precompute(c1, c2, g, p, q);
    var digits, d1, d2 := Interleave2(s1, s2);
    r := MainLoop(pre, digits[..], d1, d2, Value(s1), Value(s2), g, p, q);
  }

  method MainLoop(pre: seq<P3>, b: seq<byte>, ghost d1: seq<int>, ghost d2: seq<int>, ghost v1: int, ghost v2: int,
                  ghost g: Group, ghost p: Point, ghost q: Point) returns (r: P3)
    requires Setting(g, p, q) && Table(pre, g, p, q)
    requires |b| == |d1| == |d2| == 127 && Joined(b, d1, d2, 127)
    requires forall k :: 0 <= k < 127 ==> 0 <= d1[k] <= 3 && 0 <= d2[k] <= 3
    requires Digits(4, d1, 127) == v1 && Digits(4, d2, 127) == v2
    ensures Rep3(r, Combine(g, v1, p, v2, q))
  {
    assert Entry(pre, g, p, q, d1[126], d2[126]);
    r := pre[b[126]];
    ghost var m, n := d1[126], d2[126];
    FirstDigit(d1, v1); FirstDigit(d2, v2);
    for i := 126 downto 0
      invariant Rep2(P2(r.x, r.y, r.z), Combine(g, m, p, n, q))
      invariant Consumed(d1, i, m, v1) && Consumed(d2, i, n, v2)
      invariant i == 0 ==> Rep3(r, Combine(g, m, p, n, q))
    {
      r := Step(r, pre, b[i], i == 0, g, p, q, m, n, d1[i], d2[i]);
      ConsumeDigit(d1, i, m, v1); ConsumeDigit(d2, i, n, v2);
      m, n := 4 * m + d1[i], 4 * n + d2[i];
    }
    AllDigits(d1, m, v1); AllDigits(d2, n, v2);
  }

  lemma FirstDigit(d: seq<int>, v: int)
    requires |d| == 127 && Digits(4, d, 127) == v
    ensures Consumed(d, 126, d[126], v)
  {
    assert d[126] * Pow(4, 126) == Pow(4, 126) * d[126];
  }

  lemma AllDigits(d: seq<int>, a: int, v: int)
    requires Consumed(d, 0, a, v)
    ensures a == v
  {
    assert Pow(4, 0) == 1;
  }
}
