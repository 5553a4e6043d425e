/** The exported scalar operations of ed25519/sc25519.c built on the reductions. */
module ScalarOps {
  import opened Bits
  import opened Limbs
  import opened Rows
  import opened Sc25519
  import opened BarrettRemainder

  /** sc25519_from32bytes. */
  method From32Bytes(x: seq<byte>) returns (r: array<u32>)
    requires |x| == 32
    ensures fresh(r) && r.Length == 32 && AllBytes(r[..])
    ensures Value(r[..]) == Value(x) % M
  {
    var t: seq<u32> := x + seq(32, _ => 0);
    r := new u32[32];
    BarrettReduce(r, t);
    VSplit(t, 32, 64);
    VSame(t, x, 32);
    VZero(t[32..], 32);
  }

  /** sc25519_from64bytes. */
  method From64Bytes(x: seq<byte>) returns (r: array<u32>)
    requires |x| == 64
    ensures fresh(r) && r.Length == 32 && AllBytes(r[..])
    ensures Value(r[..]) == Value(x) % M
  {
    r := new u32[32];
    BarrettReduce(r, x);
  }

  /** sc25519_add; r may be x or y. */
  method Add(r: array<u32>, x: array<u32>, y: array<u32>)
    requires r.Length == x.Length == y.Length == 32 && AllBytes(x[..]) && AllBytes(y[..])
    requires Value(x[..]) < M && Value(y[..]) < M
    modifies r
    ensures AllBytes(r[..])
    ensures Value(r[..]) == old(Value(x[..]) + Value(y[..])) % M
  {
    ghost var s := Value(x[..]) + Value(y[..]);
    SumBounds(x[..], y[..]);
    CarriedSum(r, x, y);
    ReduceAddSub(r);
    ModOfSum(s);
  }

  lemma SumBounds(x: seq<int>, y: seq<int>)
    requires |x| == |y| == 32 && AllBytes(x) && AllBytes(y) && Value(x) < M && Value(y) < M
    ensures 0 <= Value(x) + Value(y) < 2 * M
  {
    VBound(x, 32);
    VBound(y, 32);
  }

  /** The limbwise sum with its carries. */
  method CarriedSum(r: array<u32>, x: array<u32>, y: array<u32>)
    requires r.Length == x.Length == y.Length == 32 && AllBytes(x[..]) && AllBytes(y[..])
    requires Value(x[..]) + Value(y[..]) < 2 * M
    modifies r
    ensures AllBytes(r[..]) && Value(r[..]) == old(Value(x[..]) + Value(y[..]))
  {
    assert forall k :: 0 <= k < 32 ==> x[k] == x[..][k] && y[k] == y[..][k];
    AddLimbs(r, x, y);
    CarryChain(r, 31, 510, 2);
    SumBelowTwoOrders(r[..]);
  }

  /** Below 2m the top limb of a carried sum is a byte, so reduce_add_sub may be applied. */
  lemma SumBelowTwoOrders(r: seq<int>)
    requires |r| == 32 && Value(r) < 2 * M
    requires forall k :: 0 <= k < 31 ==> 0 <= r[k] <= 255
    ensures r[31] <= 255
  {
    PLiterals();
    VBound(r, 31);
    assert V(r, 32) == V(r, 31) + r[31] * P(31);
  }

  lemma ModOfSum(s: int)
    requires 0 <= s < 2 * M
    ensures SubtractOnce(s) == s % M
  {
    DivModUnique(s, M, if s >= M then 1 else 0, SubtractOnce(s));
  }

  /** sc25519_mul; r may be x or y. */
  method Mul(r: array<u32>, x: array<u32>, y: array<u32>)
    requires r.Length == x.Length == y.Length == 32 && AllBytes(x[..]) && AllBytes(y[..])
    modifies r
    ensures AllBytes(r[..])
    ensures Value(r[..]) == old(Value(x[..]) * Value(y[..])) % M
  {
    var t := Product(x[..], y[..], 64);
    CarryChain(t, 63, 65025 * 32, 8192);
    TopLimbIsByte(t[..], x[..], y[..]);
    BarrettReduce(r, t[..]);
  }

  lemma TopLimbIsByte(t: seq<int>, x: seq<int>, y: seq<int>)
    requires |t| == 64 && |x| == |y| == 32 && AllBytes(x) && AllBytes(y)
    requires Value(t) == Value(x) * Value(y)
    requires forall k :: 0 <= k < 63 ==> 0 <= t[k] <= 255
    ensures t[63] <= 255
  {
    VBound(x, 32); VBound(y, 32);
    VBound(t, 63);
    LongLiterals();
    assert V(t, 64) == V(t, 63) + t[63] * P(63) && P(64) == 256 * P(63);
    TopDigit(Value(x), Value(y), P(32), V(t, 63), t[63], P(63));
  }

  lemma TopDigit(x: int, y: int, b: int, low: int, a: int, p: int)
    requires 0 <= x < b && 0 <= y < b && b * b == 256 * p && p > 0 && 0 <= low && low + a * p == x * y
    ensures a <= 255
  {
    MulLe(x, b - 1, y, b);
    assert (b - 1) * b == b * b - b;
    if a > 255 {
      MulLe(256, a, p, p);
    }
  }
}
