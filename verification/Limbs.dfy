/** Little-endian numbers in radix 2^8 whose limbs may be larger than a byte. */
module Limbs {
  import opened Bits

  /** 256^k. */
  function P(k: nat): (r: nat)
    ensures r > 0
  {
    if k == 0 then 1 else 256 * P(k - 1)
  }

  /** The number held in the first n limbs of s. */
  function V(s: seq<int>, n: nat): int
    requires n <= |s|
  {
    if n == 0 then 0 else V(s, n - 1) + s[n - 1] * P(n - 1)
  }

  function Value(s: seq<int>): int {
    V(s, |s|)
  }

  ghost predicate AllBytes(s: seq<int>) {
    forall i :: 0 <= i < |s| ==> 0 <= s[i] <= 255
  }

  lemma {:induction false} PAdd(a: nat, b: nat)
    ensures P(a + b) == P(a) * P(b)
  {
    if b > 0 {
      PAdd(a, b - 1);
      assert P(a + b) == 256 * P(a + (b - 1));
    }
  }

  lemma PLiterals()
    ensures P(8) == 0x1_00000000_00000000
    ensures P(16) == 0x1_00000000_00000000_00000000_00000000
    ensures P(31) == 0x1_00000000_00000000_00000000_00000000_00000000_00000000_00000000_000000
    ensures P(32) == 0x1_00000000_00000000_00000000_00000000_00000000_00000000_00000000_00000000
  {
    PAdd(4, 4); PAdd(8, 8); PAdd(16, 16);
    assert P(32) == 256 * P(31);
  }

  lemma LongLiterals()
    ensures P(33) == 0x100 * P(32) && P(64) == P(32) * P(32)
  {
    PAdd(32, 32);
  }

  lemma {:induction false} VSame(s: seq<int>, t: seq<int>, n: nat)
    requires n <= |s| && n <= |t|
    requires forall i :: 0 <= i < n ==> s[i] == t[i]
    ensures V(s, n) == V(t, n)
  {
    if n > 0 {
      VSame(s, t, n - 1);
    }
  }

  /** Changing one limb changes the number by that limb's weight. */
  lemma {:induction false} VUpdate(s: seq<int>, t: seq<int>, i: nat, n: nat)
    requires i < n <= |s| == |t|
    requires forall j :: 0 <= j < n && j != i ==> t[j] == s[j]
    ensures V(t, n) == V(s, n) + (t[i] - s[i]) * P(i)
  {
    if n == i + 1 {
      VSame(s, t, i);
      var p := P(i);
      assert t[i] * p == s[i] * p + (t[i] - s[i]) * p;
    } else {
      VUpdate(s, t, i, n - 1);
    }
  }

  lemma {:induction false} VBound(s: seq<int>, n: nat)
    requires n <= |s|
    requires forall i :: 0 <= i < n ==> 0 <= s[i] <= 255
    ensures 0 <= V(s, n) < P(n)
  {
    if n > 0 {
      VBound(s, n - 1);
      MulLe(s[n - 1], 255, P(n - 1), P(n - 1));
    }
  }

  lemma {:induction false} VNonNegative(s: seq<int>, n: nat)
    requires n <= |s|
    requires forall i :: 0 <= i < n ==> 0 <= s[i]
    ensures 0 <= V(s, n)
  {
    if n > 0 {
      VNonNegative(s, n - 1);
      MulLe(s[n - 1], s[n - 1], P(n - 1), P(n - 1));
    }
  }

  lemma FactorLast(a: int, b: int, c: int, d: int)
    ensures a * (b + c * d) == a * b + c * (a * d)
  {
  }

  /** A number is its low k limbs plus 256^k times the rest. */
  lemma {:induction false} VSplit(s: seq<int>, k: nat, n: nat)
    requires k <= n <= |s|
    ensures V(s, n) == V(s, k) + P(k) * V(s[k..], n - k)
    decreases n
  {
    if n > k {
      VSplit(s, k, n - 1);
      PAdd(k, n - 1 - k);
      assert s[k..][n - 1 - k] == s[n - 1];
      FactorLast(P(k), V(s[k..], n - 1 - k), s[n - 1], P(n - 1 - k));
    }
  }

  /** Limbs that are bytes are determined by the number. */
  lemma {:induction false} VInjective(s: seq<int>, t: seq<int>, n: nat)
    requires n <= |s| && n <= |t|
    requires forall i :: 0 <= i < n ==> 0 <= s[i] <= 255 && 0 <= t[i] <= 255
    requires V(s, n) == V(t, n)
    ensures forall i :: 0 <= i < n ==> s[i] == t[i]
  {
    if n > 0 {
      VBound(s, n - 1);
      VBound(t, n - 1);
      SameDigit(V(s, n - 1), s[n - 1], V(t, n - 1), t[n - 1], P(n - 1));
      VInjective(s, t, n - 1);
    }
  }

  lemma SameDigit(x: int, a: int, y: int, b: int, p: int)
    requires 0 <= x < p && 0 <= y < p && x + a * p == y + b * p
    ensures a == b && x == y
  {
    assert (a - b) * p == y - x;
    SmallMultiple(a - b, p);
  }

  lemma {:induction false} VZero(s: seq<int>, n: nat)
    requires n <= |s|
    requires forall i :: 0 <= i < n ==> s[i] == 0
    ensures V(s, n) == 0
  {
    if n > 0 {
      VZero(s, n - 1);
    }
  }

  lemma CarryCancels(s: int, u: int, t: int, a: int, c: int, p: int, p': int)
    requires a == -256 * c && p' == 256 * p && u == s + a * p && t == u + c * p'
    ensures t == s
  {
    assert a * p == -(c * p');
  }

  /** Moving c * 256 from limb i into limb i + 1 keeps the number. */
  lemma VCarry(s: seq<int>, t: seq<int>, i: nat, n: nat, c: int)
    requires i + 1 < n <= |s| == |t|
    requires t == s[i := s[i] - 256 * c][i + 1 := s[i + 1] + c]
    ensures V(t, n) == V(s, n)
  {
    var u := s[i := s[i] - 256 * c];
    VUpdate(s, u, i, n);
    VUpdate(u, t, i + 1, n);
    CarryCancels(V(s, n), V(u, n), V(t, n), u[i] - s[i], t[i + 1] - u[i + 1], P(i), P(i + 1));
  }

  lemma VFour(s: seq<int>)
    requires |s| >= 4
    ensures V(s, 4) == s[0] + 0x100 * s[1] + 0x10000 * s[2] + 0x1000000 * s[3]
  {
    assert P(1) == 0x100 && P(2) == 0x10000 && P(3) == 0x1000000;
    assert V(s, 1) == s[0];
    assert V(s, 2) == s[0] + 0x100 * s[1];
  }

  /** The next eight limbs, for evaluating constants. */
  function Octet(s: seq<int>, n: nat): int
    requires n + 8 <= |s|
  {
    s[n] + 0x100 * s[n + 1] + 0x10000 * s[n + 2] + 0x1000000 * s[n + 3]
    + 0x100000000 * (s[n + 4] + 0x100 * s[n + 5] + 0x10000 * s[n + 6] + 0x1000000 * s[n + 7])
  }

  lemma VOctet(s: seq<int>, n: nat)
    requires n + 8 <= |s|
    ensures V(s, n + 8) == V(s, n) + P(n) * Octet(s, n)
  {
    var t := s[n..];
    VSplit(s, n, n + 8);
    VSplit(t, 4, 8);
    VFour(t);
    VFour(t[4..]);
    assert P(4) == 0x100000000;
  }

  /** A 32-limb constant, eight limbs at a time. */
  lemma VOctets(s: seq<int>, a: int, b: int, c: int, d: int)
    requires |s| >= 32
    requires Octet(s, 0) == a && Octet(s, 8) == b && Octet(s, 16) == c && Octet(s, 24) == d
    ensures V(s, 32) == a + 0x1_00000000_00000000 * (b + 0x1_00000000_00000000 * (c + 0x1_00000000_00000000 * d))
  {
    PLiterals();
    PAdd(16, 8);
    VOctet(s, 0); VOctet(s, 8); VOctet(s, 16); VOctet(s, 24);
  }
}
