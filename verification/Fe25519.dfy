/** Arithmetic modulo 2^255 - 19 in radix 2^8 (ed25519/fe25519.c).

    A field element is a struct of 32 words, passed here by value. */
module Fe25519 {
  import opened Bits
  import opened Limbs
  import opened Rows
  import opened Field

  type Fe = s: seq<u32> | |s| == 32 witness seq(32, _ => 0)

  /** What every operation accepts and returns.  Limb 31 can reach 128, so the number itself may be
      slightly above 2^255. */
  ghost predicate Loose(x: Fe) {
    AllBytes(x) && x[31] <= 128
  }

  /** A number that is also below 2^255. */
  ghost predicate Below(x: Fe) {
    AllBytes(x) && x[31] <= 127
  }

  /** (a << 4) + (a << 1) + a, in 32 bits. */
  function Times19(a: u32): (r: u32)
    ensures 19 * a < B32 ==> r == 19 * a
  {
    Add32(Add32((a * 16) % B32, (a * 2) % B32), a)
  }

  /** (a << 5) + (a << 2) + (a << 1), in 32 bits. */
  function Times38(a: u32): (r: u32)
    ensures 38 * a < B32 ==> r == 38 * a
  {
    assert 38 * a < B32 ==> (a * 32) % B32 == a * 32 && (a * 4) % B32 == a * 4 && (a * 2) % B32 == a * 2;
    Add32(Add32((a * 32) % B32, (a * 4) % B32), (a * 2) % B32)
  }

  /** One round of the reduction loops: fold the bits from 255 up, then carry. */
  method ReductionRound(r: array<u32>, ghost cap: nat, ghost c: nat)
    requires r.Length == 32
    requires forall k :: 0 <= k < 31 ==> r[k] <= cap
    requires r[0] + 19 * (r[31] / 128) <= cap && 127 <= cap
    requires cap + c < 256 * (c + 1) && cap + c < B32
    modifies r
    ensures forall k :: 0 <= k < 31 ==> r[k] <= 255
    ensures r[31] <= 127 + c
    ensures Value(r[..]) == old(Value(r[..]) - (r[31] / 128) * Q)
  {
    ghost var s := r[..];
    var t := r[31] / 128;
    var low := Mask(r[31], 7, 128);
    r[31] := low;
    t := Times19(t);
    r[0] := Add32(r[0], t);
    FoldTop(s, r[..]);
    CarryChain(r, 31, cap, c);
  }

  lemma FoldTop(s: seq<int>, t: seq<int>)
    requires |s| == 32
    requires t == s[31 := s[31] % 128][0 := s[0] + 19 * (s[31] / 128)]
    ensures Value(t) == Value(s) - (s[31] / 128) * Q
  {
    var u := s[31 := s[31] % 128];
    VUpdate(s, u, 31, 32);
    VUpdate(u, t, 0, 32);
    PLiterals();
    assert P(0) == 1;
  }

  /** Carried limbs: the top limb is the quotient by 256^31. */
  lemma TopLimb(s: seq<int>)
    requires |s| == 32 && forall k :: 0 <= k < 31 ==> 0 <= s[k] <= 255
    ensures s[31] * P(31) <= Value(s) < (s[31] + 1) * P(31)
  {
    VBound(s, 31);
    assert V(s, 32) == V(s, 31) + s[31] * P(31);
  }

  /** A round on carried limbs with a small top limb brings the number below 2^255. */
  lemma SecondRound(s: seq<int>, t: seq<int>)
    requires |s| == |t| == 32 && 0 <= s[31] <= 255
    requires forall k :: 0 <= k < 31 ==> 0 <= s[k] <= 255 && 0 <= t[k] <= 255
    requires Value(t) == Value(s) - (s[31] / 128) * Q
    ensures s[31] <= 127 + 5 ==> t[31] <= 127
  {
    TopLimb(s);
    TopLimb(t);
    PLiterals();
  }

  /** reduce_add_sub: four rounds. */
  method ReduceAddSub(r: array<u32>)
    requires r.Length == 32 && forall k :: 0 <= k < 32 ==> r[k] <= 1024
    modifies r
    ensures Below(r[..])
    ensures Cong(Value(r[..]), old(Value(r[..])))
  {
    ghost var v := Value(r[..]);
    for rep := 0 to 4
      invariant rep == 0 ==> forall k :: 0 <= k < 32 ==> r[k] <= 1024
      invariant rep >= 1 ==> forall k :: 0 <= k < 31 ==> r[k] <= 255
      invariant rep == 1 ==> r[31] <= 127 + 5
      invariant rep >= 2 ==> r[31] <= 127
      invariant Cong(Value(r[..]), v)
    {
      ghost var s := r[..];
      ReductionRound(r, 1176, 5);
      CongShift(Value(s), Value(r[..]), s[31] / 128);
      if rep >= 1 {
        SecondRound(s, r[..]);
      }
    }
  }

  /** How far above 2^255 reduce_mul can leave a number. */
  const EXCESS: nat := 47424

  /** What the second round of reduce_mul adds at least, for the limb 30 of its argument. */
  ghost function Folded(limb: int): int {
    19 * (limb / 32768)
  }

  lemma FloorMonotone(a: int, b: int)
    requires a <= b
    ensures Folded(a) <= Folded(b)
  {
  }

  /** reduce_mul: two rounds, for the uncarried limbs of a folded product. */
  method ReduceMul(r: array<u32>)
    requires r.Length == 32 && (forall k :: 0 <= k < 31 ==> r[k] <= 39 * 65025 * 32) && r[31] <= 65025 * 32
    modifies r
    ensures Loose(r[..])
    ensures Cong(Value(r[..]), old(Value(r[..])))
    ensures Value(r[..]) == TwoRounds(old(Value(r[..])), old(r[31]))
    ensures Folded(old(r[30])) <= Value(r[..]) < P255 + EXCESS
  {
    ghost var s := r[..];
    ReductionRound(r, 81460064, 319452);
    CongShift(Value(s), Value(r[..]), s[31] / 128);
    ghost var u := r[..];
    ReductionRound(r, 60000, 236);
    CongShift(Value(u), Value(r[..]), u[31] / 128);
    LastRound(u, r[..]);
    BothRounds(Value(s), s[31], u, Value(r[..]));
    AfterFirst(s, Value(u));
    TopLimb(u);
    SecondFold(Value(u), u[31], P(31), Value(r[..]), s[30]);
  }

  /** The first round leaves everything from limb 30 of its argument. */
  lemma AfterFirst(s: seq<int>, v: int)
    requires |s| == 32 && (forall k :: 0 <= k < 32 ==> 0 <= s[k]) && v == Value(s) - (s[31] / 128) * Q
    ensures v >= s[30] * P(30)
  {
    VNonNegative(s, 30);
    assert V(s, 31) == V(s, 30) + s[30] * P(30) && V(s, 32) == V(s, 31) + s[31] * P(31);
    TopFolds(s[31], P(31));
  }

  lemma TopFolds(top: int, p: int)
    requires p == P(31) && top >= 0
    ensures top * p - (top / 128) * Q >= 0
  {
    PLiterals();
  }

  /** The second round folds what is above 2^255, at most 2496 times 19. */
  lemma SecondFold(v: int, top: int, p: int, r: int, limb: int)
    requires p == P(31) && 0 <= top <= 319579 && top * p <= v < (top + 1) * p && r == v - (top / 128) * Q
    requires limb >= 0 && v >= limb * P(30)
    ensures Folded(limb) <= r < P255 + EXCESS
  {
    TopBits(v, top, p);
    PLiterals();
    assert P(31) == 256 * P(30);
    assert v / P255 >= limb / 32768;
  }

  lemma BothRounds(v: int, top: int, u: seq<int>, r: int)
    requires |u| == 32 && (forall k :: 0 <= k < 31 ==> 0 <= u[k] <= 255) && u[31] >= 0
    requires Value(u) == v - (top / 128) * Q && r == Value(u) - (u[31] / 128) * Q
    ensures r == TwoRounds(v, top)
  {
    TopLimb(u);
    TopBits(Value(u), u[31], P(31));
    RoundsAre(v, top, Value(u), u[31], r);
  }

  lemma RoundsAre(v: int, top: int, once: int, top': int, r: int)
    requires once == v - (top / 128) * Q && once / P255 == top' / 128 && r == once - (top' / 128) * Q
    ensures r == TwoRounds(v, top)
  {
  }

  /** What two rounds make of a number with the given top limb. */
  ghost function TwoRounds(v: int, top: int): int {
    var once := v - (top / 128) * Q;
    once - (once / P255) * Q
  }

  lemma TopBits(v: int, top: int, p: int)
    requires p == P(31) && top * p <= v < (top + 1) * p && top >= 0
    ensures v / P255 == top / 128
  {
    PLiterals();
    DivModUnique(v, P255, top / 128, v - (top / 128) * P255);
  }

  lemma LastRound(s: seq<int>, t: seq<int>)
    requires |s| == |t| == 32 && 0 <= s[31] <= 400000
    requires forall k :: 0 <= k < 31 ==> 0 <= s[k] <= 255 && 0 <= t[k] <= 255
    requires Value(t) == Value(s) - (s[31] / 128) * Q
    ensures t[31] <= 128
  {
    TopLimb(s);
    TopLimb(t);
    LastRoundBound(s[31], t[31], s[31] / 128, Value(s), Value(t), P(31));
  }

  lemma LastRoundBound(a: int, b: int, k: int, s: int, t: int, p: int)
    requires p == P(31) && 0 <= a <= 400000 && k == a / 128 && s < (a + 1) * p && b * p <= t && t == s - k * Q
    ensures b <= 128
  {
    PLiterals();
  }

  method CopyIn(x: Fe) returns (r: array<u32>)
    ensures fresh(r) && r.Length == 32 && r[..] == x
  {
    r := new u32[32](i requires 0 <= i < 32 => x[i]);
    assert r[..] == x;
  }

  /** fe25519_add. */
  method Add(x: Fe, y: Fe) returns (r: Fe)
    requires Loose(x) && Loose(y)
    ensures Below(r) && Cong(Value(r), Value(x) + Value(y))
  {
    var a := CopyIn(x);
    var b := CopyIn(y);
    AddLimbs(a, a, b);
    ReduceAddSub(a);
    r := a[..];
  }

  /** The limbs of 2q that fe25519_sub adds first. */
  function Bias(i: nat): u32 {
    if i == 0 then 0x1da else if i == 31 then 0xfe else 0x1fe
  }

  lemma {:induction false} BiasValue(b: seq<int>, n: nat)
    requires 1 <= n <= 31 && n <= |b| && forall k :: 0 <= k < n ==> b[k] == Bias(k)
    ensures V(b, n) == 2 * P(n) - 38
  {
    if n == 1 {
      assert P(0) == 1 && P(1) == 256 * P(0);
      assert V(b, 1) == b[0] * P(0);
    } else {
      BiasValue(b, n - 1);
    }
  }

  /** fe25519_sub: no limb of x + 2q - y is negative. */
  method Sub(x: Fe, y: Fe) returns (r: Fe)
    requires Loose(x) && Loose(y)
    ensures Below(r) && Cong(Value(r), Value(x) - Value(y))
  {
    var a := new u32[32];
    for i := 0 to 32
      invariant forall k :: 0 <= k < i ==> a[k] == x[k] + Bias(k) - y[k] && a[k] <= 1024
    {
      var t := Add32(x[i], Bias(i));
      a[i] := Sub32(t, y[i]);
    }
    BiasedDifference(x, y, a[..]);
    ReduceAddSub(a);
    r := a[..];
  }

  lemma BiasedDifference(x: seq<int>, y: seq<int>, a: seq<int>)
    requires |x| == |y| == |a| == 32 && forall k :: 0 <= k < 32 ==> a[k] == x[k] + Bias(k) - y[k]
    ensures Cong(Value(a), Value(x) - Value(y))
  {
    var b := seq(32, k requires 0 <= k < 32 => Bias(k));
    var c := seq(32, k requires 0 <= k < 32 => a[k] + y[k]);
    VAdd(a, y, c, 32);
    VAdd(x, b, c, 32);
    BiasValue(b, 31);
    PLiterals();
    assert V(b, 32) == V(b, 31) + b[31] * P(31) == 2 * Q;
    CongShift(Value(a), Value(x) - Value(y), 2);
  }

  /** fe25519_neg. */
  method Neg(x: Fe) returns (r: Fe)
    requires Loose(x)
    ensures Below(r) && Cong(Value(r), -Value(x))
  {
    var zero: Fe := seq(32, _ => 0);
    VZero(zero, 32);
    r := Sub(zero, x);
  }

  /** fe25519_mul: schoolbook product, 2^256 folded as 38, then reduce_mul. */
  method Mul(x: Fe, y: Fe) returns (r: Fe)
    requires Loose(x) && Loose(y)
    ensures Loose(r) && Cong(Value(r), Value(x) * Value(y))
    ensures LeastProduct(x, y, 3) <= Value(r) < P255 + EXCESS
  {
    var t := Product(x, y, 63);
    r := FoldAndReduce(t[..]);
    LeastProductIs(x, y);
  }

  /** The end of fe25519_mul. */
  method FoldAndReduce(t: seq<u32>) returns (r: Fe)
    requires |t| == 63 && forall k :: 0 <= k < 63 ==> t[k] <= 65025 * 32
    ensures Loose(r) && Cong(Value(r), Value(t))
    ensures Folded(38 * t[62]) <= Value(r) < P255 + EXCESS
  {
    var a := Fold(t);
    FloorMonotone(38 * t[62], a[30]);
    ReduceMul(a);
    r := a[..];
  }

  /** No product is below this, because reduce_mul folds in 19 times what is above 2^255; folded. */
  ghost function LeastProduct(x: Fe, y: Fe, depth: nat): int
    decreases depth, x
  {
    if depth > 0 then LeastProduct(x, y, depth - 1) else Folded(38 * Term(x[31], y, 31, 0, 62))
  }

  lemma LeastProductIs(x: Fe, y: Fe)
    ensures LeastProduct(x, y, 3) == Folded(38 * Term(x[31], y, 31, 0, 62))
  {
    assert LeastProduct(x, y, 3) == LeastProduct(x, y, 2) == LeastProduct(x, y, 1) == LeastProduct(x, y, 0);
  }

  method Fold(t: seq<u32>) returns (a: array<u32>)
    requires |t| == 63 && forall k :: 0 <= k < 63 ==> t[k] <= 65025 * 32
    ensures fresh(a) && a.Length == 32 && a[31] <= 65025 * 32
    ensures forall k :: 0 <= k < 31 ==> a[k] <= 39 * 65025 * 32
    ensures a[31] == t[31] && forall k :: 0 <= k < 31 ==> a[k] == t[k] + 38 * t[k + 32]
    ensures Cong(Value(a[..]), Value(t))
  {
    a := new u32[32];
    for i := 32 to 63
      invariant forall k :: 0 <= k < i - 32 ==> a[k] == t[k] + 38 * t[k + 32]
      invariant forall k :: 0 <= k < i - 32 ==> a[k] <= 39 * 65025 * 32
    {
      a[i - 32] := Add32(t[i - 32], Times38(t[i]));
    }
    a[31] := t[31];
    FoldedProduct(t, a[..]);
  }

  lemma FoldedProduct(t: seq<int>, a: seq<int>)
    requires |t| == 63 && |a| == 32 && a[31] == t[31]
    requires forall k :: 0 <= k < 31 ==> a[k] == t[k] + 38 * t[k + 32]
    ensures Cong(Value(a), Value(t))
  {
    var h := t[32..];
    VSplit(t, 32, 63);
    FoldLimbs(t, h, a, 31);
    PLiterals();
    assert V(a, 32) == V(a, 31) + a[31] * P(31) && V(t, 32) == V(t, 31) + t[31] * P(31);
    assert V(a, 32) == V(t, 32) + 38 * V(h, 31);
    CongShift(Value(t), Value(a), 2 * V(h, 31));
  }

  lemma {:induction false} FoldLimbs(t: seq<int>, h: seq<int>, a: seq<int>, n: nat)
    requires n <= |t| && n <= |h| && n <= |a|
    requires forall k :: 0 <= k < n ==> a[k] == t[k] + 38 * h[k]
    ensures V(a, n) == V(t, n) + 38 * V(h, n)
  {
    if n > 0 {
      FoldLimbs(t, h, a, n - 1);
      Expand(t[n - 1], 38 * h[n - 1], P(n - 1));
    }
  }

  /** fe25519_square. */
  method Square(x: Fe) returns (r: Fe)
    requires Loose(x)
    ensures Loose(r) && Cong(Value(r), Value(x) * Value(x))
  {
    r := Mul(x, x);
  }

  /** equal: 1 when a == b, for 16-bit inputs. */
  function Equal(a: u32, b: u32): (r: u32)
    requires a < 0x10000 && b < 0x10000
    ensures r == if a == b then 1 else 0
  {
    XorZero(a, b);
    Pow2Words();
    XorBound(a, b, 16);
    Sub32(Xor(a, b), 1) / 0x8000_0000
  }

  /** ge: 1 when a >= b, for 16-bit inputs. */
  function Ge(a: u32, b: u32): (r: u32)
    requires a < 0x10000 && b < 0x10000
    ensures r == if a >= b then 1 else 0
  {
    Xor(Sub32(a, b) / 0x8000_0000, 1)
  }

  /** The limbs of 2^255 - 19 .. 2^255 - 1, tested from limb 31 down to limb i. */
  ghost predicate TopLimbsFull(x: seq<int>, i: nat)
    requires |x| == 32
  {
    x[31] == 127 && forall k :: i <= k < 31 ==> x[k] == 255
  }

  lemma {:induction false} FullLimbs(x: seq<int>, n: nat)
    requires |x| == 32 && 1 <= n <= 31 && forall k :: 1 <= k < n ==> x[k] == 255
    ensures V(x, n) == x[0] + P(n) - 256
  {
    if n == 1 {
      assert V(x, 1) == x[0] * P(0);
    } else {
      FullLimbs(x, n - 1);
    }
  }

  /** A number in bytes is in [q, 2^255) exactly when its limbs have the tested pattern. */
  lemma {:induction false} FullExactly(x: seq<int>, n: nat)
    requires |x| == 32 && AllBytes(x) && 1 <= n <= 31
    requires V(x, n) >= P(n) - 19
    ensures x[0] >= 237 && forall k :: 1 <= k < n ==> x[k] == 255
  {
    if n == 1 {
      assert V(x, 1) == x[0] * P(0);
    } else {
      VBound(x, n - 1);
      assert V(x, n) == V(x, n - 1) + x[n - 1] * P(n - 1);
      DigitIsFull(x[n - 1], P(n - 1), V(x, n - 1));
      FullExactly(x, n - 1);
    }
  }

  lemma DigitIsFull(a: int, p: int, low: int)
    requires 0 <= a <= 255 && p >= 256 && 0 <= low < p && low + a * p >= 256 * p - 19
    ensures a == 255
  {
    if a < 255 {
      MulLe(a, 254, p, p);
    }
  }

  function Frozen(v: int): int {
    if Q <= v < P255 then v - Q else v
  }

  /** The flag computed by fe25519_freeze. */
  method InTopRange(r: array<u32>) returns (m: u32)
    requires r.Length == 32 && AllBytes(r[..])
    ensures m == if Q <= Value(r[..]) < P255 then 1 else 0
  {
    m := Equal(r[31], 127);
    for i := 31 downto 1
      invariant m == if TopLimbsFull(r[..], i) then 1 else 0
    {
      m := AndFlags(m, Equal(r[i], 255));
    }
    m := AndFlags(m, Ge(r[0], 237));
    TopRangeExactly(r[..]);
  }

  lemma TopRangeExactly(x: seq<int>)
    requires |x| == 32 && AllBytes(x)
    ensures Q <= Value(x) < P255 <==> TopLimbsFull(x, 1) && x[0] >= 237
  {
    PLiterals();
    TopLimb(x);
    assert V(x, 32) == V(x, 31) + x[31] * P(31);
    if TopLimbsFull(x, 1) {
      FullLimbs(x, 31);
    }
    if Q <= Value(x) < P255 {
      FullExactly(x, 31);
    }
  }

  /** fe25519_freeze: subtract q from exactly the numbers in [q, 2^255). */
  method Freeze(r: array<u32>)
    requires r.Length == 32 && AllBytes(r[..])
    modifies r
    ensures AllBytes(r[..]) && (old(r[31]) <= 128 ==> r[31] <= 128)
    ensures Value(r[..]) == Frozen(old(Value(r[..])))
  {
    ghost var s := r[..];
    var m := InTopRange(r);
    TopRangeExactly(s);
    m := Sub32(0, m);
    var sub31 := MaskWith(m, 127);
    var sub := MaskWith(m, 255);
    var sub0 := MaskWith(m, 237);
    r[31] := Sub32(r[31], sub31);
    for i := 31 downto 1
      invariant r[0] == s[0] && r[31] == s[31] - sub31
      invariant forall k :: i <= k < 31 ==> r[k] == s[k] - sub
      invariant forall k :: 1 <= k < i ==> r[k] == s[k]
    {
      r[i] := Sub32(r[i], sub);
    }
    r[0] := Sub32(r[0], sub0);
    if m == 0 {
      assert r[..] == s;
    } else {
      FrozenLimbs(s, r[..]);
    }
  }

  lemma FrozenLimbs(s: seq<int>, t: seq<int>)
    requires |s| == |t| == 32 && TopLimbsFull(s, 1) && t[0] == s[0] - 237
    requires forall k :: 1 <= k < 32 ==> t[k] == 0
    ensures Value(t) == Value(s) - Q
  {
    PLiterals();
    FullLimbs(s, 31);
    VSplit(t, 1, 32);
    VZero(t[1..], 31);
    assert V(t, 1) == t[0] * P(0);
    assert V(s, 32) == V(s, 31) + s[31] * P(31);
  }
}
