/** The second product of barrett_reduce, q * m modulo 256^33, and the final subtraction. */
module BarrettRemainder {
  import opened Bits
  import opened Limbs
  import opened Rows
  import opened Sc25519
  import opened Barrett

  /** Sums of the limbs of m, plain and weighted by position, over the first n limbs. */
  function S(n: nat): nat
    requires n <= 32
  {
    if n == 0 then 0 else S(n - 1) + M_LIMBS[n - 1]
  }

  function T(n: nat): nat
    requires n <= 32
  {
    if n == 0 then 0 else T(n - 1) + (n - 1) * M_LIMBS[n - 1]
  }

  lemma SumsLow()
    ensures S(1) == 237 && T(1) == 0 && S(2) == 448 && T(2) == 211
    ensures S(3) == 693 && T(3) == 701 && S(4) == 785 && T(4) == 977
    ensures S(5) == 811 && T(5) == 1081 && S(6) == 910 && T(6) == 1576
    ensures S(7) == 928 && T(7) == 1684 && S(8) == 1016 && T(8) == 2300
  {
    assert S(2) == 448 && T(2) == 211;
    assert S(4) == 785 && T(4) == 977;
    assert S(6) == 910 && T(6) == 1576;
  }

  lemma SumsMiddle()
    ensures S(9) == 1230 && T(9) == 4012 && S(10) == 1386 && T(10) == 5416
    ensures S(11) == 1633 && T(11) == 7886 && S(12) == 1795 && T(12) == 9668
    ensures S(13) == 2017 && T(13) == 12332 && S(14) == 2266 && T(14) == 15569
    ensures S(15) == 2488 && T(15) == 18677 && S(16) == 2508 && T(16) == 18977
  {
    SumsLow();
    assert S(10) == 1386 && T(10) == 5416;
    assert S(12) == 1795 && T(12) == 9668;
    assert S(14) == 2266 && T(14) == 15569;
  }

  lemma {:induction false} SumsHigh(n: nat)
    requires 16 <= n <= 31
    ensures S(n) == 2508 && T(n) == 18977
  {
    if n == 16 {
      SumsMiddle();
    } else {
      SumsHigh(n - 1);
      assert M_LIMBS[n - 1] == 0;
    }
  }

  lemma SumsLast()
    ensures S(32) == 2524 && T(32) == 19473
  {
    SumsHigh(31);
    assert M_LIMBS[31] == 16;
  }

  lemma {:induction false} SumsGrow(a: nat, b: nat)
    requires a <= b <= 32
    ensures S(a) <= S(b) && T(a) <= T(b)
    decreases b
  {
    if a < b {
      SumsGrow(a, b - 1);
      NotNegative(b - 1, M_LIMBS[b - 1]);
    }
  }

  lemma NotNegative(a: nat, b: nat)
    ensures a * b >= 0
  {
  }

  /** Largest value limb k of the product can have after i rows. */
  function RLimit(i: nat, k: nat): int
    requires i <= 32 && k <= 32
  {
    var n := if i <= k || k == 32 then i else k + 1;
    65025 * ((32 - k) * S(n) + T(n)) + if i > k then 0xFF0000 else 0
  }

  const R_MAX: nat := 0xF800_0000

  ghost predicate FullRowFits(k: nat)
    requires k <= 31
  {
    65025 * ((32 - k) * S(k + 1) + T(k + 1)) + 0xFF0000 <= R_MAX
  }

  lemma LowRowsFit()
    ensures FullRowFits(0) && FullRowFits(1) && FullRowFits(2) && FullRowFits(3)
    ensures FullRowFits(4) && FullRowFits(5) && FullRowFits(6) && FullRowFits(7)
  {
    SumsLow();
  }

  lemma MiddleRowsFit()
    ensures FullRowFits(8) && FullRowFits(9) && FullRowFits(10) && FullRowFits(11)
    ensures FullRowFits(12) && FullRowFits(13) && FullRowFits(14) && FullRowFits(15)
  {
    SumsMiddle();
  }

  /** Full rows leave room in a 32-bit word; with limbs of 255 throughout they would not. */
  lemma AllRowsFit(k: nat)
    requires k <= 31
    ensures FullRowFits(k)
  {
    match k
    case 0 | 1 | 2 | 3 | 4 | 5 | 6 | 7 => LowRowsFit();
    case 8 | 9 | 10 | 11 | 12 | 13 | 14 | 15 => MiddleRowsFit();
    case 31 => SumsLast();
    case _ =>
      SumsHigh(k + 1);
      MulLe(32 - k, 16, 2508, 2508);
  }

  lemma RLimitFits(i: nat, k: nat)
    requires i <= 32 && k <= 32
    ensures RLimit(i, k) <= R_MAX
  {
    if k == 32 {
      SumsGrow(i, 32);
      SumsLast();
    } else {
      var n := if i <= k then i else k + 1;
      SumsGrow(n, k + 1);
      MulLe(32 - k, 32 - k, S(n), S(k + 1));
      AllRowsFit(k);
    }
  }

  /** A row stays within the next limit. */
  lemma RowWithinLimit(i: nat, k: nat, q: int)
    requires i < 32 && i <= k <= 32 && 0 <= q <= QLimit(k - i)
    ensures 0 <= M_LIMBS[i] * q < B32
    ensures RLimit(i, k) + M_LIMBS[i] * q <= RLimit(i + 1, k)
  {
    MLimbsBytes();
    var m := M_LIMBS[i];
    MulLe(m, 255, q, 0x1000000);
    WeightedRow(m, q, 32 - k, i, S(i), T(i), S(i + 1), T(i + 1), if k == i then 0x10000 else 0);
  }

  lemma WeightedRow(m: int, q: int, w: int, i: int, s: int, t: int, s': int, t': int, e: int)
    requires 0 <= m <= 255 && 0 <= e && 0 <= q <= 65025 * (w + i) + e
    requires s' == s + m && t' == t + i * m
    ensures 65025 * (w * s + t) + m * q <= 65025 * (w * s' + t') + 255 * e
  {
    MulLe(m, m, q, 65025 * (w + i) + e);
    MulLe(m, 255, e, e);
    assert m * (65025 * (w + i) + e) == 65025 * (w * m + i * m) + m * e;
    assert w * s' == w * s + w * m;
  }

  ghost predicate WithinLimits(r2: seq<int>, i: nat)
    requires i <= 32
  {
    |r2| == 33 && forall k :: 0 <= k < 33 ==> 0 <= r2[k] <= RLimit(i, k)
  }

  /** After i rows the product so far is r2 plus a multiple of 256^33. */
  ghost predicate Accumulated(r2: seq<int>, drop: int, m: seq<int>, i: nat, y: seq<int>) {
    |r2| == 33 && |y| == 33 && i <= |m| && V(r2, 33) + P(33) * drop == V(m, i) * V(y, 33)
  }

  lemma NothingAccumulated(r2: seq<int>, m: seq<int>, y: seq<int>)
    requires |r2| == |y| == 33 && forall k :: 0 <= k < 33 ==> r2[k] == 0
    ensures Accumulated(r2, 0, m, 0, y)
  {
    VZero(r2, 33);
  }

  /** q * m, keeping only the low 33 limbs; no accumulator wraps. */
  method RemainderProduct(q3: seq<u32>) returns (r2: array<u32>, ghost drop: int)
    requires QuotientLimbs(q3)
    ensures fresh(r2) && r2.Length == 33 && WithinLimits(r2[..], 32)
    ensures Value(r2[..]) + P(33) * drop == M * Value(q3)
  {
    MLimbsBytes();
    ghost var m := M_LIMBS;
    r2 := new u32[33](_ => 0);
    drop := 0;
    NothingAccumulated(r2[..], m, q3);
    for i := 0 to 32
      invariant WithinLimits(r2[..], i)
      invariant Accumulated(r2[..], drop, m, i, q3)
    {
      ghost var s := r2[..];
      RemainderRowFits(s, i, q3);
      AddRow(r2, i, M_LIMBS[i], q3, 0);
      drop := RemainderRow(s, r2[..], m, i, q3, drop);
    }
    AllAccumulated(r2[..], drop, q3);
  }

  lemma AllAccumulated(r2: seq<int>, drop: int, y: seq<int>)
    requires Accumulated(r2, drop, M_LIMBS, 32, y)
    ensures Value(r2) + P(33) * drop == M * Value(y)
  {
    MLimbsValue();
  }

  lemma RemainderRowFits(s: seq<int>, i: nat, q3: seq<u32>)
    requires i < 32 && WithinLimits(s, i) && QuotientLimbs(q3)
    ensures forall k :: 0 <= k < 33 ==> s[k] + Term(M_LIMBS[i], q3, i, 0, k) < B32
    ensures forall j :: 0 <= j < 33 ==> M_LIMBS[i] * q3[j] < B32
    ensures forall t :: RowAdded(s, t, i, M_LIMBS[i], q3, 0) ==> WithinLimits(t, i + 1)
  {
    forall k | 0 <= k < 33
      ensures 0 <= s[k] + Term(M_LIMBS[i], q3, i, 0, k) <= RLimit(i + 1, k) <= R_MAX
    {
      RLimitFits(i + 1, k);
      if i <= k {
        RowWithinLimit(i, k, q3[k - i]);
      }
    }
    ProductsFit(i, q3);
  }

  lemma ProductsFit(i: nat, q3: seq<u32>)
    requires i < 32 && QuotientLimbs(q3)
    ensures forall j :: 0 <= j < 33 ==> M_LIMBS[i] * q3[j] < B32
  {
    forall j | 0 <= j < 33
      ensures M_LIMBS[i] * q3[j] < B32
    {
      MulLe(M_LIMBS[i], 255, q3[j], 0x1000000);
    }
  }

  /** What row i contributes, and the multiple of 256^33 it leaves out. */
  lemma RemainderRow(s: seq<int>, t: seq<int>, m: seq<int>, i: nat, y: seq<int>, drop: int) returns (drop': int)
    requires |s| == 33 && i < 32 && |m| == 32 && |y| == 33
    requires RowAdded(s, t, i, m[i], y, 0)
    requires Accumulated(s, drop, m, i, y)
    ensures Accumulated(t, drop', m, i + 1, y)
  {
    var c, cut := m[i], 33 - i;
    RowValue(s, t, i, c, y, 0, 33);
    VSplit(y, cut, 33);
    PAdd(i, cut);
    drop' := drop + c * V(y[cut..], i);
    SplitTop(V(s, 33), V(t, 33), V(m, i), c, P(i), V(y, cut), P(cut), V(y[cut..], i), P(33), V(y, 33), drop, drop');
  }

  lemma SplitTop(s: int, t: int, m: int, c: int, p: int, low: int, w: int, high: int, q: int, y: int, drop: int, drop': int)
    requires s + q * drop == m * y && t == s + c * p * low
    requires q == p * w && y == low + w * high && drop' == drop + c * high
    ensures t + q * drop' == (m + c * p) * y
  {
    assert (m + c * p) * y == m * y + c * p * y;
    assert c * p * y == c * p * low + (p * w) * (c * high);
    assert q * drop' == q * drop + q * (c * high);
  }

  /** The estimate is never above the true quotient, and at most two below it. */
  lemma EstimateIsClose(x: int, x1: int, x0: int, q: int)
    requires 0 <= x < P(64) && 0 <= x0 < P(31) && x == x0 + P(31) * x1
    requires q * P(33) <= MU * x1 < q * P(33) + P(33) + 31 * 255 * P(31)
    ensures 0 <= x - q * M < 3 * M
  {
    PLiterals();
    LongLiterals();
  }

  /** barrett_reduce up to its correction steps: x - q m, in 32 digits. */
  method Remainder(x: seq<u32>) returns (t: array<u32>, ghost q: int)
    requires |x| == 64 && AllBytes(x)
    ensures fresh(t) && t.Length == 32 && AllBytes(t[..])
    ensures 0 <= Value(t[..]) == Value(x) - q * M < 3 * M
  {
    var q3 := Quotient(x);
    var r2, drop := RemainderProduct(q3);
    LimitsFit(r2[..]);
    CarryChain(r2, 32, R_MAX, 0x100_0000);
    var b;
    t, b := Subtract(x[..32], r2[..32]);
    RemainderInRange(x, q3);
    RemainderDigits(x, q3, r2[..], drop, t[..], b);
    q := Value(q3);
  }

  /** barrett_reduce: x mod m. */
  method BarrettReduce(r: array<u32>, x: seq<u32>)
    requires r.Length == 32 && |x| == 64 && AllBytes(x)
    modifies r
    ensures AllBytes(r[..])
    ensures Value(r[..]) == Value(x) % M
  {
    var t, q := Remainder(x);
    ghost var digits := t[..];
    forall k | 0 <= k < 32 {
      r[k] := t[k];
    }
    assert r[..] == digits;
    ReduceAddSub(r);
    ReduceAddSub(r);
    TwoSubtractions(Value(x), q);
  }

  lemma LimitsFit(r2: seq<int>)
    requires WithinLimits(r2, 32)
    ensures forall k :: 0 <= k < 33 ==> r2[k] <= R_MAX
  {
    forall k | 0 <= k < 33 ensures r2[k] <= R_MAX {
      RLimitFits(32, k);
    }
  }

  lemma RemainderInRange(x: seq<int>, q3: seq<int>)
    requires |x| == 64 && AllBytes(x) && |q3| == 33
    requires Value(q3) * P(33) <= MU * Value(x[31..]) < Value(q3) * P(33) + P(33) + 31 * 255 * P(31)
    ensures 0 <= Value(x) - Value(q3) * M < 3 * M
  {
    VSplit(x, 31, 64);
    VBound(x, 31);
    VBound(x, 64);
    EstimateIsClose(Value(x), Value(x[31..]), V(x, 31), Value(q3));
  }

  /** The 32 digits kept are those of x - q m. */
  lemma RemainderDigits(x: seq<int>, q3: seq<int>, r2: seq<int>, drop: int, t: seq<int>, b: int)
    requires |x| == 64 && |q3| == 33 && |r2| == 33 && |t| == 32 && AllBytes(t)
    requires Value(r2) + P(33) * drop == M * Value(q3)
    requires Value(t) == Value(x[..32]) - Value(r2[..32]) + b * P(32)
    requires 0 <= Value(x) - Value(q3) * M < 3 * M
    ensures Value(t) == Value(x) - Value(q3) * M
  {
    VSplit(x, 32, 64);
    VSame(x, x[..32], 32);
    VSplit(r2, 32, 33);
    VSame(r2, r2[..32], 32);
    VBound(t, 32);
    TopDigitsCancel(Value(x), V(x, 32), V(x[32..], 32), V(r2, 32), V(r2[32..], 1), drop, Value(t), b, Value(q3));
  }

  lemma TopDigitsCancel(x: int, xl: int, xh: int, rl: int, rh: int, drop: int, t: int, b: int, q: int)
    requires x == xl + P(32) * xh && rl + P(32) * rh + P(33) * drop == M * q
    requires t == xl - rl + b * P(32) && 0 <= t < P(32) && 0 <= x - q * M < 3 * M
    ensures t == x - q * M
  {
    PLiterals();
  }

  lemma TwoSubtractions(x: int, q: int)
    requires 0 <= x - q * M < 3 * M
    ensures SubtractOnce(SubtractOnce(x - q * M)) == x % M
  {
    var d := x - q * M;
    var k := if d < M then 0 else if d < 2 * M then 1 else 2;
    assert (q + k) * M + (d - k * M) == x;
    DivModUnique(x, M, q + k, d - k * M);
  }
}
