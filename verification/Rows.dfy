/** Schoolbook multiplication, one row at a time: acc[i + j] += c * y[j], and the carry chain
    that brings the limbs back to bytes. */
module Rows {
  import opened Bits
  import opened Limbs

  /** How many limbs of a len-limb operand shifted up by i lie below position k. */
  function Cut(k: nat, i: nat, len: nat): (r: nat)
    ensures r <= len
  {
    if k <= i then 0 else if k - i <= len then k - i else len
  }

  /** The part of row i that falls on position k, when positions below lo are skipped. */
  function Term(c: int, y: seq<int>, i: nat, lo: nat, k: nat): int {
    if lo <= k && i <= k < i + |y| then c * y[k - i] else 0
  }

  /** t is s with row i added. */
  ghost predicate RowAdded(s: seq<int>, t: seq<int>, i: nat, c: int, y: seq<int>, lo: nat) {
    |t| == |s| && forall k :: 0 <= k < |s| ==> t[k] == s[k] + Term(c, y, i, lo, k)
  }

  /** The inner loop `for j: if (lo <= i+j < acc.Length) acc[i+j] += c * y[j]`. */
  method AddRow(acc: array<u32>, i: nat, c: u32, y: seq<u32>, lo: nat)
    requires forall k :: 0 <= k < acc.Length ==> acc[k] + Term(c, y, i, lo, k) < B32
    requires forall j :: 0 <= j < |y| ==> c * y[j] < B32
    modifies acc
    ensures RowAdded(old(acc[..]), acc[..], i, c, y, lo)
  {
    for j := 0 to |y|
      invariant forall k :: 0 <= k < acc.Length ==>
        acc[k] == old(acc[k]) + if k < i + j then Term(c, y, i, lo, k) else 0
    {
      if lo <= i + j < acc.Length {
        Mul32Exact(c, y[j]);
        assert Term(c, y, i, lo, i + j) == c * y[j];
        acc[i + j] := Add32(acc[i + j], Mul32(c, y[j]));
      }
    }
  }

  lemma Regroup(c: int, p: int, a: int, b: int, d: int, e: int)
    ensures c * p * (a - b) + c * d * (p * e) == c * p * (a + d * e - b)
  {
  }

  lemma RowStep(vs: int, vt: int, s: int, t: int, w: int, c: int, p: int, e: int, a: int, b: int, d: int)
    requires vt == vs + c * p * (a - b) && t == s + c * d && w == p * e
    ensures vt + t * w == (vs + s * w) + c * p * (a + d * e - b)
  {
    Regroup(c, p, a, b, d, e);
    Expand(s, c * d, w);
  }

  /** What one row adds to the number in the first n limbs. */
  lemma {:induction false} RowValue(s: seq<int>, t: seq<int>, i: nat, c: int, y: seq<int>, lo: nat, n: nat)
    requires RowAdded(s, t, i, c, y, lo) && n <= |s|
    ensures V(t, n) == V(s, n) + c * P(i) * (V(y, Cut(n, i, |y|)) - V(y, Cut(if lo < n then lo else n, i, |y|)))
  {
    if n > 0 {
      RowValue(s, t, i, c, y, lo, n - 1);
      var k := n - 1;
      if lo <= k && i <= k < i + |y| {
        PAdd(i, k - i);
        RowStep(V(s, k), V(t, k), s[k], t[k], P(k), c, P(i), P(k - i), V(y, k - i), V(y, Cut(lo, i, |y|)), y[k - i]);
      } else if k < lo {
      } else {
        assert Cut(n, i, |y|) == Cut(k, i, |y|);
      }
    }
  }

  lemma Expand(a: int, b: int, p: int)
    ensures (a + b) * p == a * p + b * p
  {
  }

  /** `for i < n: a[i+1] += a[i] >> 8; a[i] &= 0xff`.  Limbs up to cap send carries up to c. */
  method CarryChain(a: array<u32>, n: nat, ghost cap: nat, ghost c: nat)
    requires n < a.Length
    requires forall k :: 0 <= k <= n ==> a[k] <= cap
    requires cap + c < 256 * (c + 1) && cap + c < B32
    modifies a
    ensures forall k :: 0 <= k < n ==> a[k] <= 255
    ensures old(a[n]) <= a[n] <= old(a[n]) + c
    ensures forall k :: n < k < a.Length ==> a[k] == old(a[k])
    ensures V(a[..], n + 1) == old(V(a[..], n + 1))
  {
    for i := 0 to n
      invariant forall k :: 0 <= k < i ==> a[k] <= 255
      invariant old(a[i]) <= a[i] <= old(a[i]) + c
      invariant forall k :: i < k < a.Length ==> a[k] == old(a[k])
      invariant V(a[..], n + 1) == old(V(a[..], n + 1))
    {
      ghost var s := a[..];
      var carry := a[i] / 256;
      a[i + 1] := Add32(a[i + 1], carry);
      a[i] := a[i] % 256;
      VCarry(s, a[..], i, n + 1, carry);
    }
  }

  /** All rows: the product of two 32-limb byte numbers, uncarried. */
  method Product(x: seq<u32>, y: seq<u32>, n: nat) returns (t: array<u32>)
    requires |x| == |y| == 32 && AllBytes(x) && AllBytes(y) && n >= 63
    ensures fresh(t) && t.Length == n
    ensures forall k :: 0 <= k < n ==> t[k] <= 65025 * 32
    ensures Value(t[..]) == Value(x) * Value(y)
    ensures t[62] == Term(x[31], y, 31, 0, 62)
  {
    t := new u32[n](_ => 0);
    VZero(t[..], n);
    for i := 0 to 32
      invariant t[62] == if i == 32 then Term(x[31], y, 31, 0, 62) else 0
      invariant forall k :: 0 <= k < n ==> t[k] <= 65025 * i
      invariant V(t[..], n) == V(x, i) * V(y, 32)
    {
      ProductRow(t, i, x[i], y);
      AddOneRow(V(x, i), x[i], P(i), V(y, 32));
    }
  }

  /** One row of Product. */
  method ProductRow(t: array<u32>, i: nat, c: u32, y: seq<u32>)
    requires t.Length >= 63 && |y| == 32 && AllBytes(y) && c <= 255 && i < 32
    requires forall k :: 0 <= k < t.Length ==> t[k] <= 65025 * i
    modifies t
    ensures forall k :: 0 <= k < t.Length ==> t[k] <= 65025 * (i + 1)
    ensures t[62] == old(t[62]) + (if i < 31 then 0 else Term(c, y, i, 0, 62))
    ensures V(t[..], t.Length) == old(V(t[..], t.Length)) + c * P(i) * (V(y, 32) - 0)
  {
    ghost var s := t[..];
    ProductRowFits(i, c, y);
    AddRow(t, i, c, y, 0);
    RowValue(s, t[..], i, c, y, 0, t.Length);
  }

  lemma ProductRowFits(i: nat, c: u32, y: seq<u32>)
    requires AllBytes(y) && c <= 255
    ensures forall k :: 0 <= k ==> 0 <= Term(c, y, i, 0, k) <= 65025
    ensures forall j :: 0 <= j < |y| ==> c * y[j] < B32
  {
    forall j | 0 <= j < |y| ensures 0 <= c * y[j] <= 65025 {
      MulLe(c, 255, y[j], 255);
    }
  }

  lemma AddOneRow(m: int, c: int, p: int, y: int)
    ensures m * y + c * p * (y - 0) == (m + c * p) * y
  {
  }

  /** `for i < 32: r[i] = x[i] + y[i]`; r may be x or y. */
  method AddLimbs(r: array<u32>, x: array<u32>, y: array<u32>)
    requires r.Length == x.Length == y.Length == 32
    requires forall k :: 0 <= k < 32 ==> x[k] + y[k] < B32
    modifies r
    ensures forall k :: 0 <= k < 32 ==> r[k] == old(x[k]) + old(y[k])
    ensures Value(r[..]) == old(Value(x[..])) + old(Value(y[..]))
  {
    ghost var xs, ys := x[..], y[..];
    for i := 0 to 32
      invariant forall k :: i <= k < 32 ==> x[k] == xs[k] && y[k] == ys[k]
      invariant forall k :: 0 <= k < i ==> r[k] == xs[k] + ys[k]
    {
      r[i] := Add32(x[i], y[i]);
    }
    VAdd(xs, ys, r[..], 32);
  }

  lemma {:induction false} VAdd(x: seq<int>, y: seq<int>, r: seq<int>, n: nat)
    requires n <= |x| && n <= |y| && n <= |r|
    requires forall k :: 0 <= k < n ==> r[k] == x[k] + y[k]
    ensures V(r, n) == V(x, n) + V(y, n)
  {
    if n > 0 {
      VAdd(x, y, r, n - 1);
      Expand(x[n - 1], y[n - 1], P(n - 1));
    }
  }
}
