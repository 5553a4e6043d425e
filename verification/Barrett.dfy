/** barrett_reduce (ed25519/sc25519.c), after Algorithm 14.42 of the Handbook of Applied
    Cryptography, on limbs that are not carried between the two products. */
module Barrett {
  import opened Bits
  import opened Limbs
  import opened Rows
  import opened Sc25519

  /** Rows among the first i that reach limb k of the 33 x 33 product. */
  function RowsReaching(i: nat, k: nat): nat {
    if k <= 32 then i else if i <= k - 32 then 0 else i - (k - 32)
  }

  ghost predicate QuotientBound(q2: seq<int>, i: nat) {
    forall k :: 0 <= k < |q2| ==> 0 <= q2[k] <= 65025 * RowsReaching(i, k)
  }

  /** The truncated product: positions below 31 are never computed. */
  method QuotientProduct(x1: seq<u32>) returns (q2: array<u32>, ghost drop: int)
    requires |x1| == 33 && AllBytes(x1)
    ensures fresh(q2) && q2.Length == 66 && QuotientBound(q2[..], 33)
    ensures forall k :: 0 <= k < 31 ==> q2[k] == 0
    ensures Value(q2[..]) + drop == MU * Value(x1)
    ensures 0 <= drop <= 31 * 255 * P(31)
  {
    MuLimbsBytes();
    ghost var mu := MU_LIMBS;
    PLiterals();
    q2 := new u32[66](_ => 0);
    drop := 0;
    VZero(q2[..], 66);
    for i := 0 to 33
      invariant QuotientBound(q2[..], i)
      invariant forall k :: 0 <= k < 31 ==> q2[k] == 0
      invariant V(q2[..], 66) + drop == V(mu, i) * V(x1, 33)
      invariant 0 <= drop <= (if i < 31 then i else 31) * 255 * P(31)
    {
      ghost var s := q2[..];
      QuotientRowFits(s, i, MU_LIMBS[i], x1);
      AddRow(q2, i, MU_LIMBS[i], x1, 31);
      ghost var d := QuotientRow(s, q2[..], mu, i, x1, drop);
      drop := drop + d;
    }
    MuLimbsValue();
  }

  lemma QuotientRowFits(s: seq<int>, i: nat, c: u32, x1: seq<u32>)
    requires |s| == 66 && i < 33 && QuotientBound(s, i)
    requires |x1| == 33 && AllBytes(x1) && c <= 255
    ensures forall k :: 0 <= k < 66 ==> 0 <= Term(c, x1, i, 31, k) <= 65025 && s[k] + Term(c, x1, i, 31, k) < B32
    ensures forall j :: 0 <= j < 33 ==> c * x1[j] < B32
    ensures forall t :: RowAdded(s, t, i, c, x1, 31) ==> QuotientBound(t, i + 1)
  {
    forall j | 0 <= j < 33 ensures 0 <= c * x1[j] <= 65025 {
      MulLe(c, 255, x1[j], 255);
    }
    assert forall k :: 0 <= k < 66 ==> 0 <= Term(c, x1, i, 31, k) <= 65025;
    assert forall k :: 0 <= k < 66 && Term(c, x1, i, 31, k) > 0 ==> RowsReaching(i + 1, k) == RowsReaching(i, k) + 1;
  }

  /** What row i contributes, and what it leaves out below position 31. */
  lemma QuotientRow(s: seq<int>, t: seq<int>, mu: seq<int>, i: nat, x1: seq<int>, drop: int) returns (d: int)
    requires |s| == 66 && i < 33 && |mu| == 33 && |x1| == 33 && AllBytes(mu) && AllBytes(x1)
    requires RowAdded(s, t, i, mu[i], x1, 31)
    requires V(s, 66) + drop == V(mu, i) * V(x1, 33)
    ensures V(t, 66) + (drop + d) == V(mu, i + 1) * V(x1, 33)
    ensures 0 <= d <= (if i < 31 then 255 * P(31) else 0)
  {
    var c, cut := mu[i], Cut(31, i, 33);
    RowValue(s, t, i, c, x1, 31, 66);
    d := c * P(i) * V(x1, cut);
    SplitRow(V(mu, i), c, P(i), V(x1, 33), V(x1, cut));
    VBound(x1, cut);
    if i < 31 {
      PAdd(i, 31 - i);
      DroppedRow(c, P(i), V(x1, cut), P(31 - i));
    }
  }

  lemma SplitRow(m: int, c: int, p: int, x: int, low: int)
    ensures m * x + c * p * (x - low) + c * p * low == (m + c * p) * x
  {
  }

  lemma DroppedRow(c: int, p: int, v: int, w: int)
    requires 0 <= c <= 255 && 0 <= p && 0 <= v < w
    ensures 0 <= c * p * v <= 255 * (p * w)
  {
    MulLe(c, 255, p, p);
    MulLe(c * p, 255 * p, v, w);
    assert 255 * p * w == 255 * (p * w);
  }

  /** Largest possible limb j of the quotient estimate; limb 0 also takes the carry from below. */
  function QLimit(j: nat): nat
    requires j <= 32
  {
    65025 * (32 - j) + if j == 0 then 0x10000 else 0
  }

  ghost predicate QuotientLimbs(q3: seq<int>) {
    |q3| == 33 && forall j :: 0 <= j < 33 ==> 0 <= q3[j] <= QLimit(j)
  }

  /** The quotient estimate q is at most mu * floor(x / 256^31) / 256^33, and short of it by less
      than 1 plus the value of the skipped rows. */
  method Quotient(x: seq<u32>) returns (q3: seq<u32>)
    requires |x| == 64 && AllBytes(x)
    ensures QuotientLimbs(q3)
    ensures Value(q3) * P(33) <= MU * Value(x[31..]) < Value(q3) * P(33) + P(33) + 31 * 255 * P(31)
  {
    var q2, drop := QuotientProduct(x[31..]);
    q3 := UpperLimbs(q2);
  }

  /** Two carries out of the lower half, and the upper half. */
  method UpperLimbs(q2: array<u32>) returns (q3: seq<u32>)
    requires q2.Length == 66 && QuotientBound(q2[..], 33) && forall k :: 0 <= k < 31 ==> q2[k] == 0
    modifies q2
    ensures QuotientLimbs(q3) && Value(q3) * P(33) <= old(Value(q2[..])) < Value(q3) * P(33) + P(33)
  {
    ghost var s := q2[..];
    assert s[31] == q2[31] && s[32] == q2[32] && s[33] == q2[33];
    var carry := q2[31] / 256;
    q2[32] := Add32(q2[32], carry);
    carry := q2[32] / 256;
    q2[33] := Add32(q2[33], carry);
    q3 := q2[33..];
    assert q3 == s[33..][0 := s[33] + carry];
    CarryIntoQuotient(s, q3, s[31] / 256, carry);
    CarriedLimbs(s, q3, carry);
  }

  lemma CarriedLimbs(s: seq<int>, q3: seq<int>, c: nat)
    requires |s| == 66 && QuotientBound(s, 33) && c <= 0x10000
    requires q3 == s[33..][0 := s[33] + c]
    ensures QuotientLimbs(q3)
  {
    forall j | 0 <= j < 33 ensures 0 <= q3[j] <= QLimit(j) {
      assert s[33..][j] == s[33 + j];
    }
  }

  lemma CarryIntoQuotient(s: seq<int>, q3: seq<int>, c1: int, c2: int)
    requires |s| == 66 && |q3| == 33
    requires forall k :: 0 <= k < 31 ==> s[k] == 0
    requires c1 == s[31] / 256 && c2 == (s[32] + c1) / 256
    requires q3 == s[33..][0 := s[33] + c2]
    ensures Value(q3) * P(33) <= Value(s) < Value(q3) * P(33) + P(33)
  {
    VSplit(s, 33, 66);
    VZero(s, 31);
    VUpdate(s[33..], q3, 0, 33);
    var p := P(31);
    assert P(0) == 1 && P(32) == 256 * p && P(33) == 0x10000 * p;
    assert V(s, 33) == s[31] * p + s[32] * (256 * p);
    TwoLimbs(s[31], s[32], c1, c2, p);
    CarryOut(V(s, 33), V(s[33..], 33), c2, P(33), Value(s), Value(q3));
  }

  /** The carry out of two limbs. */
  lemma TwoLimbs(a: int, b: int, c1: int, c2: int, p: int)
    requires c1 == a / 256 && c2 == (b + c1) / 256 && p > 0
    ensures c2 * (0x10000 * p) <= a * p + b * (256 * p) < c2 * (0x10000 * p) + 0x10000 * p
  {
    var n := a + 256 * b;
    assert 0x10000 * c2 <= n < 0x10000 * c2 + 0x10000;
    MulLe(0, n - 0x10000 * c2, p, p);
    MulLe(0, 0x10000 * c2 + 0xFFFF - n, p, p);
    assert (n - 0x10000 * c2) * p == a * p + b * (256 * p) - c2 * (0x10000 * p);
  }

  lemma CarryOut(low: int, high: int, c: int, p: int, s: int, q: int)
    requires c * p <= low < c * p + p && s == low + p * high && q == high + c
    ensures q * p <= s < q * p + p
  {
    assert (high + c) * p == p * high + c * p;
  }
}
