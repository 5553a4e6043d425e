/** Scalar recoding for the two scalar multiplications: sc25519_window3 and sc25519_2interleave2. */
module Windows {
  import opened Bits
  import opened Limbs
  import opened Field
  import opened Sc25519

  /** The number with digits d[0..n] in base b; digits may be negative. */
  function Digits(b: nat, d: seq<int>, n: nat): int
    requires n <= |d|
  {
    if n == 0 then 0 else Digits(b, d, n - 1) + d[n - 1] * Pow(b, n - 1)
  }

  lemma {:induction false} DigitsSame(b: nat, s: seq<int>, t: seq<int>, n: nat)
    requires n <= |s| && n <= |t|
    requires forall k :: 0 <= k < n ==> s[k] == t[k]
    ensures Digits(b, s, n) == Digits(b, t, n)
  {
    if n > 0 {
      DigitsSame(b, s, t, n - 1);
    }
  }

  lemma {:induction false} DigitsUpdate(b: nat, s: seq<int>, t: seq<int>, i: nat, n: nat)
    requires i < n <= |s| == |t|
    requires forall k :: 0 <= k < n && k != i ==> t[k] == s[k]
    ensures Digits(b, t, n) == Digits(b, s, n) + (t[i] - s[i]) * Pow(b, i)
  {
    if n == i + 1 {
      DigitsSame(b, s, t, i);
      Difference(t[i], s[i], Pow(b, i));
    } else {
      DigitsUpdate(b, s, t, i, n - 1);
    }
  }

  lemma Difference(x: int, y: int, p: int)
    ensures x * p == y * p + (x - y) * p
  {
  }

  lemma {:induction false} Pow8IsP(i: nat)
    ensures Pow(8, 8 * i) == P(3 * i)
  {
    if i > 0 {
      Pow8IsP(i - 1);
      Pow8Step(8 * (i - 1));
      assert P(3 * i) == 256 * P(3 * i - 1) == 65536 * P(3 * i - 2) == 0x1000000 * P(3 * i - 3);
    }
  }

  lemma Pow8Step(e: nat)
    ensures Pow(8, e + 1) == 8 * Pow(8, e) && Pow(8, e + 2) == 64 * Pow(8, e) && Pow(8, e + 3) == 512 * Pow(8, e)
    ensures Pow(8, e + 4) == 4096 * Pow(8, e) && Pow(8, e + 5) == 32768 * Pow(8, e)
    ensures Pow(8, e + 6) == 262144 * Pow(8, e) && Pow(8, e + 7) == 2097152 * Pow(8, e)
    ensures Pow(8, e + 8) == 16777216 * Pow(8, e)
  {
    assert Pow(8, e + 1) == 8 * Pow(8, e);
    assert Pow(8, e + 2) == 8 * Pow(8, e + 1);
    assert Pow(8, e + 3) == 8 * Pow(8, e + 2);
    assert Pow(8, e + 4) == 8 * Pow(8, e + 3);
    assert Pow(8, e + 5) == 8 * Pow(8, e + 4);
    assert Pow(8, e + 6) == 8 * Pow(8, e + 5);
    assert Pow(8, e + 7) == 8 * Pow(8, e + 6);
  }

  type schar = x: int | -128 <= x < 128

  /** The number with these eight base-8 digits. */
  function Octets(d: seq<int>): int
    requires |d| == 8
  {
    d[0] + 8 * d[1] + 64 * d[2] + 512 * d[3] + 4096 * d[4] + 32768 * d[5] + 262144 * d[6] + 2097152 * d[7]
  }

  /** The 3-bit groups of three consecutive bytes, as the loop body of sc25519_window3 extracts them. */
  method Octal(a: byte, b: byte, c: byte) returns (d: seq<schar>)
    ensures |d| == 8 && forall k :: 0 <= k < 8 ==> 0 <= d[k] <= 7
    ensures d[4] == b / 16 % 8 && (b <= 127 && c == 0 ==> d[5] == d[6] == d[7] == 0)
    ensures Octets(d) == a + 256 * b + 65536 * c
  {
    assert Pow2(3) == 8;
    var d0 := Mask(a, 3, 8);
    var d1 := Mask(a / 8, 3, 8);
    var d2 := ThirdGroup(a, b);
    var d3 := Mask(b / 2, 3, 8);
    var d4 := Mask(b / 16, 3, 8);
    var d5 := SixthGroup(b, c);
    var d6 := Mask(c / 4, 3, 8);
    var d7 := Mask(c / 32, 3, 8);
    assert a == d0 + 8 * d1 + 64 * (a / 64) by { FirstByte(a); }
    assert b == b % 2 + 2 * d3 + 16 * d4 + 128 * (b / 128) by { SecondByte(b); }
    assert c == c % 4 + 4 * d6 + 32 * d7 by { ThirdByte(c); }
    d := [d0, d1, d2, d3, d4, d5, d6, d7];
    GroupedBits(d0, d1, d2, d3, d4, d5, d6, d7, a, a / 64, b, b % 2, b / 128, c, c % 4);
  }

  /** `(a >> 6) & 7`, then `^= (b << 2) & 7`. */
  method ThirdGroup(a: byte, b: byte) returns (d: nat)
    ensures d == a / 64 + 4 * (b % 2) <= 7
  {
    assert Pow2(3) == 8 && Pow2(2) == 4;
    d := Mask(a / 64, 3, 8);
    var above := Mask(b * 4, 3, 8);
    d := XorAbove(d, above, 2, b % 2);
  }

  /** `(b >> 7) & 7`, then `^= (c << 1) & 7`. */
  method SixthGroup(b: byte, c: byte) returns (d: nat)
    ensures d == b / 128 + 2 * (c % 4) <= 7
  {
    assert Pow2(3) == 8 && Pow2(1) == 2;
    d := Mask(b / 128, 3, 8);
    var above := Mask(c * 2, 3, 8);
    d := XorAbove(d, above, 1, c % 4);
  }

  lemma GroupedBits(d0: int, d1: int, d2: int, d3: int, d4: int, d5: int, d6: int, d7: int,
                    a: int, aHigh: int, b: int, bLow: int, bHigh: int, c: int, cLow: int)
    requires d2 == aHigh + 4 * bLow && d5 == bHigh + 2 * cLow
    requires a == d0 + 8 * d1 + 64 * aHigh
    requires b == bLow + 2 * d3 + 16 * d4 + 128 * bHigh
    requires c == cLow + 4 * d6 + 32 * d7
    ensures d0 + 8 * d1 + 64 * d2 + 512 * d3 + 4096 * d4 + 32768 * d5 + 262144 * d6 + 2097152 * d7 == a + 256 * b + 65536 * c
  {
  }

  lemma FirstByte(a: byte)
    ensures a == a % 8 + 8 * (a / 8 % 8) + 64 * (a / 64)
  {
  }

  lemma SecondByte(b: byte)
    ensures b == b % 2 + 2 * (b / 2 % 8) + 16 * (b / 16 % 8) + 128 * (b / 128)
  {
  }

  lemma ThirdByte(c: byte)
    ensures c == c % 4 + 4 * (c / 4 % 8) + 32 * (c / 32 % 8)
  {
  }

  lemma TwoDigits(d: seq<int>, n: nat)
    requires n + 2 <= |d|
    ensures Digits(8, d, n + 2) == Digits(8, d, n) + d[n] * Pow(8, n) + 8 * d[n + 1] * Pow(8, n)
  {
    assert Pow(8, n + 1) == 8 * Pow(8, n);
    assert Digits(8, d, n + 1) == Digits(8, d, n) + d[n] * Pow(8, n);
    assert Digits(8, d, n + 2) == Digits(8, d, n + 1) + d[n + 1] * Pow(8, n + 1);
  }

  /** Eight digits appended to a base-8 number. */
  lemma EightDigits(d: seq<int>, n: nat)
    requires n + 8 <= |d|
    ensures Digits(8, d, n + 8) == Digits(8, d, n) + Octets(d[n..n + 8]) * Pow(8, n)
  {
    Pow8Step(n);
    TwoDigits(d, n); TwoDigits(d, n + 2); TwoDigits(d, n + 4); TwoDigits(d, n + 6);
    EightTerms(d[n..n + 8], Pow(8, n), Pow(8, n + 2), Pow(8, n + 4), Pow(8, n + 6));
  }

  lemma EightTerms(e: seq<int>, p: int, p2: int, p4: int, p6: int)
    requires |e| == 8 && p2 == 64 * p && p4 == 4096 * p && p6 == 262144 * p
    ensures Octets(e) * p == (e[0] * p + 8 * e[1] * p) + (e[2] * p2 + 8 * e[3] * p2)
                           + (e[4] * p4 + 8 * e[5] * p4) + (e[6] * p6 + 8 * e[7] * p6)
  {
  }

  /** Writing one group of digits extends the number by three bytes. */
  lemma GroupValue(s: seq<int>, r: seq<int>, i: nat)
    requires 3 * i + 3 <= |s| && 8 * i + 8 <= |r|
    requires Digits(8, r, 8 * i) == V(s, 3 * i)
    requires Octets(r[8 * i..8 * i + 8]) == s[3 * i] + 256 * s[3 * i + 1] + 65536 * s[3 * i + 2]
    ensures Digits(8, r, 8 * i + 8) == V(s, 3 * i + 3)
  {
    Pow8IsP(i);
    GroupAdded(s, 3 * i, r, 8 * i);
  }

  lemma GroupAdded(s: seq<int>, k: nat, r: seq<int>, n: nat)
    requires k + 3 <= |s| && n + 8 <= |r| && Pow(8, n) == P(k) && Digits(8, r, n) == V(s, k)
    requires Octets(r[n..n + 8]) == s[k] + 256 * s[k + 1] + 65536 * s[k + 2]
    ensures Digits(8, r, n + 8) == V(s, k + 3)
  {
    EightDigits(r, n);
    ThreeLimbs(s, k);
    SameSum(Digits(8, r, n), Digits(8, r, n + 8), Octets(r[n..n + 8]), Pow(8, n),
            V(s, k), V(s, k + 3), s[k] + 256 * s[k + 1] + 65536 * s[k + 2], P(k));
  }

  lemma SameSum(d: int, d': int, a: int, p: int, v: int, v': int, b: int, q: int)
    requires d == v && a == b && p == q && d' == d + a * p && v' == v + b * q
    ensures d' == v'
  {
  }

  lemma ThreeLimbs(s: seq<int>, n: nat)
    requires n + 3 <= |s|
    ensures V(s, n + 3) == V(s, n) + (s[n] + 256 * s[n + 1] + 65536 * s[n + 2]) * P(n)
  {
    assert P(n + 1) == 256 * P(n) && P(n + 2) == 256 * P(n + 1);
    assert V(s, n + 1) == V(s, n) + s[n] * P(n);
    assert V(s, n + 2) == V(s, n + 1) + s[n + 1] * (256 * P(n));
    assert V(s, n + 3) == V(s, n + 2) + s[n + 2] * (65536 * P(n));
  }

  method PutDigits(r: array<schar>, at: nat, d: seq<schar>)
    requires at + |d| <= r.Length
    requires forall k :: 0 <= k < |d| ==> 0 <= d[k] <= 7
    requires forall k :: 0 <= k < r.Length ==> 0 <= r[k] <= 7
    modifies r
    ensures forall k :: 0 <= k < r.Length ==> 0 <= r[k] <= 7
    ensures r[at..at + |d|] == d
    ensures Digits(8, r[..], at) == old(Digits(8, r[..], at))
  {
    ghost var before := r[..];
    for j := 0 to |d|
      invariant forall k :: 0 <= k < r.Length ==> 0 <= r[k] <= 7
      invariant forall k :: 0 <= k < at ==> r[k] == before[k]
      invariant forall k :: 0 <= k < j ==> r[at + k] == d[k]
    {
      r[at + j] := d[j];
    }
    DigitsSame(8, before, r[..], at);
  }

  /** The next three bytes, as eight digits. */
  method PutGroup(r: array<schar>, n: nat, s: seq<u32>, k: nat)
    requires n + 8 <= r.Length && k + 3 <= |s| && AllBytes(s) && Pow(8, n) == P(k)
    requires (forall j :: 0 <= j < r.Length ==> 0 <= r[j] <= 7) && Digits(8, r[..], n) == V(s, k)
    modifies r
    ensures (forall j :: 0 <= j < r.Length ==> 0 <= r[j] <= 7) && Digits(8, r[..], n + 8) == V(s, k + 3)
  {
    var d := Octal(s[k], s[k + 1], s[k + 2]);
    PutDigits(r, n, d);
    assert r[..][n..n + 8] == d;
    GroupAdded(s, k, r[..], n);
  }

  /** The unsigned 3-bit digits of a scalar below 2^255. */
  method OctalWindow(s: seq<u32>) returns (r: array<schar>)
    requires |s| == 32 && AllBytes(s) && s[31] <= 127
    ensures fresh(r) && r.Length == 85 && r[84] == s[31] / 16
    ensures forall k :: 0 <= k < 85 ==> 0 <= r[k] <= 7
    ensures Digits(8, r[..], 85) == Value(s)
  {
    r := new schar[85](_ => 0);
    for i := 0 to 10
      invariant forall k :: 0 <= k < 85 ==> 0 <= r[k] <= 7
      invariant Digits(8, r[..], 8 * i) == V(s, 3 * i)
    {
      Pow8IsP(i);
      PutGroup(r, 8 * i, s, 3 * i);
    }
    var d := Octal(s[30], s[31], 0);
    PutDigits(r, 80, d[..5]);
    assert r[..][80..] == d[..5];
    LastGroup(s, r[..], d);
  }

  lemma LastGroup(s: seq<int>, r: seq<int>, d: seq<int>)
    requires |s| == 32 && |r| == 85 && |d| == 8 && Digits(8, r, 80) == V(s, 30)
    requires r[80..] == d[..5] && d[5] == d[6] == d[7] == 0 && Octets(d) == s[30] + 256 * s[31]
    ensures Digits(8, r, 85) == Value(s)
  {
    var e, t := r + [0, 0, 0], s + [0];
    DigitsSame(8, r, e, 80);
    VSame(s, t, 30);
    assert e[80..88] == d;
    GroupValue(t, e, 10);
    DigitsSame(8, r, e, 85);
    VSame(s, t, 32);
    assert Digits(8, e, 86) == Digits(8, e, 85) && Digits(8, e, 87) == Digits(8, e, 86);
  }

  /** sc25519_window3: signed base-8 digits of a reduced scalar. */
  method Window3(s: seq<u32>) returns (r: array<schar>)
    requires |s| == 32 && AllBytes(s) && Value(s) < M
    ensures fresh(r) && r.Length == 85
    ensures forall k :: 0 <= k < 85 ==> -4 <= r[k] <= 3
    ensures Digits(8, r[..], 85) == Value(s)
  {
    TopLimbOfReduced(s);
    r := OctalWindow(s);
    var carry: schar := 0;
    for i := 0 to 84
      invariant 0 <= carry <= 1 && 0 <= r[i] && r[i] + carry <= 8
      invariant forall k :: i < k < 85 ==> 0 <= r[k] <= 7
      invariant r[84] + carry <= (if i == 84 then 2 else 1 + carry)
      invariant forall k :: 0 <= k < i ==> -4 <= r[k] <= 3
      invariant Digits(8, r[..], 85) + carry * Pow(8, i) == Value(s)
    {
      ghost var before := r[..];
      var x := r[i] + carry;
      r[i + 1] := r[i + 1] + x / 8;
      r[i] := x % 8;
      ghost var c := carry;
      carry := r[i] / 4;
      r[i] := r[i] - carry * 8;
      SignedStep(before, r[..], i, c, carry);
    }
    ghost var before := r[..];
    r[84] := r[84] + carry;
    DigitsUpdate(8, before, r[..], 84, 85);
  }

  lemma TopLimbOfReduced(s: seq<int>)
    requires |s| == 32 && AllBytes(s) && Value(s) < M
    ensures s[31] <= 16
  {
    PLiterals();
    VBound(s, 31);
    assert V(s, 32) == V(s, 31) + s[31] * P(31);
  }

  /** One step of "making it signed" keeps the number. */
  lemma SignedStep(s: seq<int>, t: seq<int>, i: nat, c: int, c': int)
    requires |s| == |t| == 85 && i < 84
    requires forall k :: 0 <= k < 85 && k != i && k != i + 1 ==> t[k] == s[k]
    requires t[i + 1] == s[i + 1] + (s[i] + c) / 8
    requires t[i] == (s[i] + c) % 8 - 8 * c'
    ensures Digits(8, t, 85) + c' * Pow(8, i + 1) == Digits(8, s, 85) + c * Pow(8, i)
  {
    var u := s[i := t[i]];
    DigitsUpdate(8, s, u, i, 85);
    DigitsUpdate(8, u, t, i + 1, 85);
    SignedCancel(t[i] - s[i], t[i + 1] - s[i + 1], c, c', Pow(8, i), Pow(8, i + 1));
  }

  lemma SignedCancel(a: int, b: int, c: int, c': int, p: int, p': int)
    requires a == c - 8 * b - 8 * c' && p' == 8 * p
    ensures a * p + b * p' + c' * p' == c * p
  {
  }

  /** The base-4 digits of a byte. */
  function Quads(a: int): seq<int> {
    [a % 4, a / 4 % 4, a / 16 % 4, a / 64 % 4]
  }

  /** d is the base-4 expansion of the first n bytes of s. */
  ghost predicate Expansion(d: seq<int>, s: seq<int>, n: nat) {
    && n <= |s| && |d| == 4 * n
    && (forall k :: 0 <= k < |d| ==> 0 <= d[k] <= 3)
    && Digits(4, d, 4 * n) == V(s, n) && Pow(4, 4 * n) == P(n)
  }

  lemma FourDigits(d: seq<int>, n: nat)
    requires n + 4 <= |d|
    ensures Digits(4, d, n + 4) == Digits(4, d, n) + (d[n] + 4 * d[n + 1] + 16 * d[n + 2] + 64 * d[n + 3]) * Pow(4, n)
    ensures Pow(4, n + 4) == 256 * Pow(4, n)
  {
    var p := Pow(4, n);
    assert Pow(4, n + 1) == 4 * p && Pow(4, n + 2) == 4 * Pow(4, n + 1) && Pow(4, n + 3) == 4 * Pow(4, n + 2);
    assert Digits(4, d, n + 1) == Digits(4, d, n) + d[n] * p;
    assert Digits(4, d, n + 2) == Digits(4, d, n + 1) + d[n + 1] * (4 * p);
    assert Digits(4, d, n + 3) == Digits(4, d, n + 2) + d[n + 2] * (16 * p);
    assert Digits(4, d, n + 4) == Digits(4, d, n + 3) + d[n + 3] * (64 * p);
  }

  lemma ExtendExpansion(d: seq<int>, s: seq<int>, n: nat)
    requires n < |s| && AllBytes(s) && Expansion(d, s, n)
    ensures Expansion(d + Quads(s[n]), s, n + 1)
  {
    var k, e, q := 4 * n, d + Quads(s[n]), Quads(s[n]);
    FourDigits(e, k);
    DigitsSame(4, d, e, k);
    FourBitPairs(s[n]);
    assert e[k] == q[0] && e[k + 1] == q[1] && e[k + 2] == q[2] && e[k + 3] == q[3];
    assert 4 * (n + 1) == k + 4;
  }

  lemma FourBitPairs(a: byte)
    ensures a % 4 + 4 * (a / 4 % 4) + 16 * (a / 16 % 4) + 64 * (a / 64 % 4) == a
  {
  }

  /** A scalar below 2^254 is given by its first 127 base-4 digits. */
  lemma DropTopDigit(d: seq<int>, s: seq<int>)
    requires |s| == 32 && Expansion(d, s, 32) && d[127] == 0
    ensures Digits(4, d[..127], 127) == Value(s)
  {
    DigitsSame(4, d, d[..127], 127);
    assert Digits(4, d, 128) == Digits(4, d, 127) + d[127] * Pow(4, 127);
  }

  /** One interleaved digit: bits of s1 below bits of s2. */
  method Nibble(a: nat, b: nat) returns (r: byte)
    ensures r == a % 4 + 4 * (b % 4)
  {
    assert Pow2(2) == 4;
    var lo := Mask(a, 2, 4);
    var hi := Mask(b, 2, 4);
    r := XorAbove(lo, hi * 4, 2, hi);
  }

  /** The four digits of one byte of each scalar. */
  method NibbleGroup(a: byte, b: byte) returns (q: seq<byte>)
    ensures |q| == 4 && forall j :: 0 <= j < 4 ==> q[j] == Quads(a)[j] + 4 * Quads(b)[j]
  {
    var q0 := Nibble(a, b);
    var q1 := Nibble(a / 4, b / 4);
    var q2 := Nibble(a / 16, b / 16);
    var q3 := Nibble(a / 64, b / 64);
    q := [q0, q1, q2, q3];
  }

  /** r[k] = d1[k] + 4 * d2[k] below n. */
  ghost predicate Joined(r: seq<int>, d1: seq<int>, d2: seq<int>, n: nat) {
    n <= |r| && n <= |d1| && n <= |d2| && forall k :: 0 <= k < n ==> r[k] == d1[k] + 4 * d2[k]
  }

  /** The loop of sc25519_2interleave2. */
  method InterleaveBytes(r: array<byte>, s1: seq<u32>, s2: seq<u32>) returns (ghost d1: seq<int>, ghost d2: seq<int>)
    requires r.Length == 127 && |s1| == |s2| == 32 && AllBytes(s1) && AllBytes(s2)
    modifies r
    ensures Expansion(d1, s1, 31) && Expansion(d2, s2, 31) && Joined(r[..], d1, d2, 124)
  {
    d1, d2 := [], [];
    for i := 0 to 31
      invariant Expansion(d1, s1, i) && Expansion(d2, s2, i) && Joined(r[..], d1, d2, 4 * i)
    {
      var q := NibbleGroup(s1[i], s2[i]);
      r[4 * i], r[4 * i + 1], r[4 * i + 2], r[4 * i + 3] := q[0], q[1], q[2], q[3];
      d1, d2 := Extend(d1, s1, d2, s2, i);
    }
  }

  /** sc25519_2interleave2: joint base-4 digits d1 + 4 * d2 of two scalars below 2^254. */
  method Interleave2(s1: seq<u32>, s2: seq<u32>) returns (r: array<byte>, ghost d1: seq<int>, ghost d2: seq<int>)
    requires |s1| == |s2| == 32 && AllBytes(s1) && AllBytes(s2) && s1[31] <= 63 && s2[31] <= 63
    ensures fresh(r) && r.Length == |d1| == |d2| == 127 && Joined(r[..], d1, d2, 127)
    ensures forall k :: 0 <= k < 127 ==> 0 <= d1[k] <= 3 && 0 <= d2[k] <= 3
    ensures Digits(4, d1, 127) == Value(s1) && Digits(4, d2, 127) == Value(s2)
  {
    r := new byte[127](_ => 0);
    d1, d2 := InterleaveBytes(r, s1, s2);
    var q := NibbleGroup(s1[31], s2[31]);
    r[124], r[125], r[126] := q[0], q[1], q[2];
    d1, d2 := LastDigits(r[..], d1, s1, d2, s2);
  }

  lemma LastDigits(r: seq<int>, d1: seq<int>, s1: seq<int>, d2: seq<int>, s2: seq<int>)
    returns (e1: seq<int>, e2: seq<int>)
    requires |r| == 127 && |s1| == |s2| == 32 && AllBytes(s1) && AllBytes(s2) && s1[31] <= 63 && s2[31] <= 63
    requires Expansion(d1, s1, 31) && Expansion(d2, s2, 31) && Joined(r, d1, d2, 124)
    requires r[124] == Quads(s1[31])[0] + 4 * Quads(s2[31])[0]
    requires r[125] == Quads(s1[31])[1] + 4 * Quads(s2[31])[1]
    requires r[126] == Quads(s1[31])[2] + 4 * Quads(s2[31])[2]
    ensures |e1| == |e2| == 127 && Joined(r, e1, e2, 127)
    ensures forall k :: 0 <= k < 127 ==> 0 <= e1[k] <= 3 && 0 <= e2[k] <= 3
    ensures Digits(4, e1, 127) == Value(s1) && Digits(4, e2, 127) == Value(s2)
  {
    e1 := LastThree(d1, s1);
    e2 := LastThree(d2, s2);
    forall k | 0 <= k < 127 ensures r[k] == e1[k] + 4 * e2[k] {
      assert k < 124 || k == 124 || k == 125 || k == 126;
    }
  }

  lemma LastThree(d: seq<int>, s: seq<int>) returns (e: seq<int>)
    requires |s| == 32 && AllBytes(s) && s[31] <= 63 && Expansion(d, s, 31)
    ensures |e| == 127 && forall k :: 0 <= k < 127 ==> 0 <= e[k] <= 3
    ensures forall k :: 0 <= k < 124 ==> e[k] == d[k]
    ensures e[124] == Quads(s[31])[0] && e[125] == Quads(s[31])[1] && e[126] == Quads(s[31])[2]
    ensures Digits(4, e, 127) == Value(s)
  {
    ExtendExpansion(d, s, 31);
    var f := d + Quads(s[31]);
    DropTopDigit(f, s);
    e := f[..127];
  }

  lemma Extend(d1: seq<int>, s1: seq<int>, d2: seq<int>, s2: seq<int>, n: nat) returns (e1: seq<int>, e2: seq<int>)
    requires n < |s1| && AllBytes(s1) && Expansion(d1, s1, n)
    requires n < |s2| && AllBytes(s2) && Expansion(d2, s2, n)
    ensures Expansion(e1, s1, n + 1) && Expansion(e2, s2, n + 1)
    ensures e1[..4 * n] == d1 && e1[4 * n..] == Quads(s1[n])
    ensures e2[..4 * n] == d2 && e2[4 * n..] == Quads(s2[n])
  {
    ExtendExpansion(d1, s1, n);
    ExtendExpansion(d2, s2, n);
    e1, e2 := d1 + Quads(s1[n]), d2 + Quads(s2[n]);
  }
}
