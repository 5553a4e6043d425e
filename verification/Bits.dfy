/** Bitwise operators on natural numbers, and the unsigned machine words built on them.

    The C sources mix `&`, `|`, `^` and shifts with ordinary arithmetic.  Here every word is a
    natural number, so that both kinds of reasoning meet in one type; a 32-bit word operation
    reduces its result explicitly. */
module Bits {

  const B32: nat := 0x1_0000_0000
  const B64: nat := 0x1_0000_0000_0000_0000
  const ONES32: nat := 0xFFFF_FFFF

  type u32 = x: int | 0 <= x < 0x1_0000_0000
  type u64 = x: int | 0 <= x < 0x1_0000_0000_0000_0000
  type byte = x: int | 0 <= x < 256

  function Add32(x: u32, y: u32): u32 {
    if x + y < B32 then x + y else x + y - B32
  }

  function Sub32(x: u32, y: u32): u32 {
    if x >= y then x - y else x - y + B32
  }

  function Mul32(x: u32, y: u32): u32 {
    (x * y) % B32
  }

  function Add64(x: u64, y: u64): u64 {
    if x + y < B64 then x + y else x + y - B64
  }

  /** A 32x32 product kept in 64 bits loses nothing. */
  function Mul64(x: u32, y: u32): (r: u64)
    ensures r == x * y
  {
    assert 0 <= x * y <= ONES32 * ONES32 by { MulLe(x, ONES32, y, ONES32); }
    x * y
  }

  /** The cast (uint32_t). */
  function Low32(x: u64): u32 {
    x % B32
  }

  lemma MulLe(a: int, x: int, b: int, y: int)
    requires 0 <= a <= x && 0 <= b <= y
    ensures 0 <= a * b <= x * y
  {
    assert a * b <= x * b <= x * y;
  }

  lemma Mul32Exact(x: u32, y: u32)
    requires x * y < B32
    ensures Mul32(x, y) == x * y
  {
    assert 0 <= x * y;
  }

  function Pow2(k: nat): (r: nat)
    ensures r > 0
  {
    if k == 0 then 1 else 2 * Pow2(k - 1)
  }

  lemma {:induction false} Pow2Add(a: nat, b: nat)
    ensures Pow2(a + b) == Pow2(a) * Pow2(b)
  {
    if b > 0 {
      Pow2Add(a, b - 1);
      assert Pow2(a + b) == 2 * Pow2(a + (b - 1));
    }
  }

  lemma Pow2Words()
    ensures Pow2(8) == 256 && Pow2(16) == 65536 && Pow2(24) == 0x100_0000 && Pow2(32) == B32
  {
    Pow2Add(8, 8); Pow2Add(16, 8); Pow2Add(16, 16);
  }

  function And(x: nat, y: nat): nat {
    if x == 0 || y == 0 then 0
    else (if x % 2 == 1 && y % 2 == 1 then 1 else 0) + 2 * And(x / 2, y / 2)
  }

  function Or(x: nat, y: nat): nat {
    if x == 0 then y else if y == 0 then x
    else (if x % 2 + y % 2 > 0 then 1 else 0) + 2 * Or(x / 2, y / 2)
  }

  function Xor(x: nat, y: nat): nat {
    if x == 0 then y else if y == 0 then x
    else (x % 2 + y % 2) % 2 + 2 * Xor(x / 2, y / 2)
  }

  /** The shift x << k, without a word size. */
  function Shl(x: nat, k: nat): nat {
    if k == 0 then x else 2 * Shl(x, k - 1)
  }

  lemma {:induction false} ShlIsMul(x: nat, k: nat)
    ensures Shl(x, k) == Pow2(k) * x
  {
    if k > 0 {
      ShlIsMul(x, k - 1);
    }
  }

  /** The three operators on numbers given by their lowest bit and the rest. */
  lemma AndBits(x: nat, a: nat, y: nat, b: nat)
    requires a <= 1 && b <= 1
    ensures And(2 * x + a, 2 * y + b) == (if a == b == 1 then 1 else 0) + 2 * And(x, y)
  {
    assert (2 * x + a) / 2 == x && (2 * y + b) / 2 == y;
  }

  lemma XorBits(x: nat, a: nat, y: nat, b: nat)
    requires a <= 1 && b <= 1
    ensures Xor(2 * x + a, 2 * y + b) == (if a == b then 0 else 1) + 2 * Xor(x, y)
  {
    assert (2 * x + a) / 2 == x && (2 * y + b) / 2 == y;
  }

  lemma AndJoin(x: nat, x': nat, a: nat, y: nat, y': nat, b: nat)
    requires x == 2 * x' + a && y == 2 * y' + b && a <= 1 && b <= 1
    ensures And(x, y) == (if a == b == 1 then 1 else 0) + 2 * And(x', y')
  {
    AndBits(x', a, y', b);
  }

  lemma XorJoin(x: nat, x': nat, a: nat, y: nat, y': nat, b: nat)
    requires x == 2 * x' + a && y == 2 * y' + b && a <= 1 && b <= 1
    ensures Xor(x, y) == (if a == b then 0 else 1) + 2 * Xor(x', y')
  {
    XorBits(x', a, y', b);
  }

  lemma OrJoin(x: nat, x': nat, a: nat, y: nat, y': nat, b: nat)
    requires x == 2 * x' + a && y == 2 * y' + b && a <= 1 && b <= 1
    ensures Or(x, y) == (if a + b > 0 then 1 else 0) + 2 * Or(x', y')
  {
    assert x / 2 == x' && y / 2 == y';
  }

  /** Splitting both operands of `&` at bit k. */
  lemma {:induction false} AndSplit(xl: nat, xh: nat, yl: nat, yh: nat, k: nat)
    requires xl < Pow2(k) && yl < Pow2(k)
    ensures And(xl + Shl(xh, k), yl + Shl(yh, k)) == And(xl, yl) + Shl(And(xh, yh), k)
    decreases k
  {
    if k > 0 {
      var x, a, y, b := xl / 2, xl % 2, yl / 2, yl % 2;
      var sx, sy, sz := Shl(xh, k - 1), Shl(yh, k - 1), Shl(And(xh, yh), k - 1);
      assert And(x + sx, y + sy) == And(x, y) + sz by { AndSplit(x, xh, y, yh, k - 1); }
      AndBitsTwice(xl, x, a, sx, yl, y, b, sy, sz);
    }
  }

  lemma AndBitsTwice(xl: nat, x: nat, a: nat, sx: nat, yl: nat, y: nat, b: nat, sy: nat, sz: nat)
    requires xl == 2 * x + a && yl == 2 * y + b && a <= 1 && b <= 1
    requires And(x + sx, y + sy) == And(x, y) + sz
    ensures And(xl + 2 * sx, yl + 2 * sy) == And(xl, yl) + 2 * sz
  {
    AndJoin(xl + 2 * sx, x + sx, a, yl + 2 * sy, y + sy, b);
    AndJoin(xl, x, a, yl, y, b);
  }

  /** The only multiple of d strictly between -d and d is 0. */
  lemma SmallMultiple(k: int, d: int)
    requires -d < k * d < d
    ensures k == 0
  {
    if k >= 1 {
      MulLe(1, k, d, d);
    } else if k <= -1 {
      MulLe(1, -k, d, d);
    }
  }

  lemma DivModUnique(x: int, d: int, q: int, r: int)
    requires d > 0 && x == q * d + r && 0 <= r < d
    ensures x / d == q && x % d == r
  {
    var k := x / d - q;
    assert k * d == r - x % d;
    SmallMultiple(k, d);
  }

  /** Masking with 2^k - 1 keeps the low k bits. */
  lemma AndLow(lo: nat, hi: nat, k: nat)
    requires lo < Pow2(k)
    ensures And(lo + Shl(hi, k), Pow2(k) - 1) == lo
  {
    AndOnes(lo, k);
    ShlIsMul(0, k);
    AndSplit(lo, hi, Pow2(k) - 1, 0, k);
  }

  lemma {:induction false} AndOnes(x: nat, k: nat)
    requires x < Pow2(k)
    ensures And(x, Pow2(k) - 1) == x
    decreases k
  {
    if k > 0 {
      AndOnes(x / 2, k - 1);
      AndBits(x / 2, x % 2, Pow2(k - 1) - 1, 1);
    }
  }

  lemma {:induction false} AndComm(x: nat, y: nat)
    ensures And(x, y) == And(y, x)
  {
    if x > 0 && y > 0 {
      AndComm(x / 2, y / 2);
    }
  }

  /** `mask & c` for a mask of all zeros or all ones. */
  method MaskWith(mask: u32, c: u32) returns (r: u32)
    requires mask == 0 || mask == ONES32
    ensures r == if mask == 0 then 0 else c
  {
    Pow2Words();
    AndOnes(c, 32);
    AndComm(c, ONES32);
    r := And(mask, c);
  }

  /** `a & b` for truth values. */
  method AndFlags(a: u32, b: u32) returns (r: u32)
    requires a <= 1 && b <= 1
    ensures r == if a == b == 1 then 1 else 0
  {
    AndBits(0, a, 0, b);
    r := And(a, b);
  }

  /** A field below bit k joined by `|` or `^` to one shifted above it. */
  lemma {:induction false} OrDisjoint(lo: nat, hi: nat, k: nat)
    requires lo < Pow2(k)
    ensures Or(lo, Shl(hi, k)) == Or(Shl(hi, k), lo) == lo + Shl(hi, k)
    decreases k
  {
    if k > 0 && lo > 0 {
      OrDisjoint(lo / 2, hi, k - 1);
      OrJoin(lo, lo / 2, lo % 2, Shl(hi, k), Shl(hi, k - 1), 0);
      OrJoin(Shl(hi, k), Shl(hi, k - 1), 0, lo, lo / 2, lo % 2);
    }
  }

  lemma {:induction false} OrBound(x: nat, y: nat, k: nat)
    requires x < Pow2(k) && y < Pow2(k)
    ensures Or(x, y) < Pow2(k)
    decreases k
  {
    if k > 0 && x > 0 && y > 0 {
      OrBound(x / 2, y / 2, k - 1);
    }
  }

  lemma {:induction false} OrAtLeast(x: nat, y: nat)
    ensures Or(x, y) >= x && Or(x, y) >= y
  {
    if x > 0 && y > 0 {
      OrAtLeast(x / 2, y / 2);
    }
  }

  lemma {:induction false} OrAbsorb(lo: nat, k: nat)
    requires lo < Pow2(k)
    ensures Or(lo + Pow2(k), Pow2(k)) == lo + Pow2(k)
    decreases k
  {
    if k > 0 {
      OrAbsorb(lo / 2, k - 1);
      OrJoin(lo + Pow2(k), lo / 2 + Pow2(k - 1), lo % 2, Pow2(k), Pow2(k - 1), 0);
    }
  }

  lemma {:induction false} XorDisjoint(lo: nat, hi: nat, k: nat)
    requires lo < Pow2(k)
    ensures Xor(lo, Shl(hi, k)) == lo + Shl(hi, k)
    decreases k
  {
    if k > 0 && lo > 0 {
      XorDisjoint(lo / 2, hi, k - 1);
      XorBits(lo / 2, lo % 2, Shl(hi, k - 1), 0);
    }
  }

  lemma {:induction false} XorBound(x: nat, y: nat, k: nat)
    requires x < Pow2(k) && y < Pow2(k)
    ensures Xor(x, y) < Pow2(k)
    decreases k
  {
    if k > 0 && x > 0 && y > 0 {
      XorBound(x / 2, y / 2, k - 1);
    }
  }

  lemma {:induction false} XorCancel(x: nat, y: nat)
    ensures Xor(x, Xor(x, y)) == y
    decreases x
  {
    if x > 0 {
      var x', a, y', b := x / 2, x % 2, y / 2, y % 2;
      XorCancel(x', y');
      XorJoin(x, x', a, y, y', b);
      XorJoin(x, x', a, Xor(x, y), Xor(x', y'), if a == b then 0 else 1);
    }
  }

  lemma {:induction false} XorSelf(x: nat)
    ensures Xor(x, x) == 0
  {
    if x > 0 {
      XorSelf(x / 2);
    }
  }

  /** The branch-free choice `old ^ ((old ^ new) & mask)`. */
  function MaskedMove(mask: u32, old_: u32, new_: u32): nat {
    Xor(old_, And(Xor(old_, new_), mask))
  }

  lemma MaskedMoveSelects(mask: u32, old_: u32, new_: u32)
    requires mask == 0 || mask == ONES32
    ensures MaskedMove(mask, old_, new_) == if mask == 0 then old_ else new_
  {
    Pow2Words();
    XorBound(old_, new_, 32);
    AndOnes(Xor(old_, new_), 32);
    XorCancel(old_, new_);
  }

  /** Xor of two numbers is 0 exactly when they are equal. */
  lemma XorZero(x: nat, y: nat)
    ensures Xor(x, y) == 0 <==> x == y
  {
    XorSelf(x);
    XorCancel(x, y);
  }

  lemma Euclid(x: nat, p: nat) returns (q: nat, m: nat)
    requires p > 0
    ensures m < p && x == m + p * q && m == x % p && q == x / p
  {
    m := x % p;
    assert x / p >= 0;
    q := x / p;
  }

  /** `x & (2^k - 1)`, computed; callers see only the arithmetic meaning. */
  method Mask(x: nat, k: nat, p: nat) returns (r: nat)
    requires p == Pow2(k)
    ensures r == x % p
  {
    ghost var q, m := Euclid(x, p);
    ShlIsMul(q, k);
    AndLow(m, q, k);
    r := And(x, p - 1);
  }

  /** `lo ^ x` and `lo | x`, where x = h << k lies above lo. */
  method XorAbove(lo: nat, x: nat, k: nat, ghost h: nat) returns (r: nat)
    requires lo < Pow2(k) && x == Pow2(k) * h
    ensures r == lo + x
  {
    ShlIsMul(h, k);
    XorDisjoint(lo, h, k);
    r := Xor(lo, x);
  }

  method OrAbove(lo: nat, x: nat, k: nat, ghost h: nat) returns (r: nat)
    requires lo < Pow2(k) && x == Pow2(k) * h
    ensures r == lo + x
  {
    ShlIsMul(h, k);
    OrDisjoint(lo, h, k);
    r := Or(lo, x);
  }

  /** `x | 2^k` for x of at most k + 1 bits. */
  method SetBit(x: nat, k: nat, p: nat) returns (r: nat)
    requires p == Pow2(k) && x < 2 * p
    ensures r == if x < p then x + p else x
  {
    if x < p {
      ShlIsMul(1, k);
      OrDisjoint(x, 1, k);
    } else {
      OrAbsorb(x - p, k);
    }
    r := Or(x, p);
  }

  lemma {:induction false} XorCommutes(x: nat, y: nat)
    ensures Xor(x, y) == Xor(y, x)
  {
    if x > 0 && y > 0 {
      XorCommutes(x / 2, y / 2);
    }
  }

  /** Exclusive or acts on low and high parts separately. */
  lemma {:induction false} XorSplit(a: nat, b: nat, c: nat, d: nat, k: nat)
    requires a < Pow2(k) && c < Pow2(k)
    ensures Xor(a + Shl(b, k), c + Shl(d, k)) == Xor(a, c) + Shl(Xor(b, d), k)
    decreases k
  {
    if k > 0 {
      var x, i, y, j := a / 2, a % 2, c / 2, c % 2;
      var sx, sy, sz := Shl(b, k - 1), Shl(d, k - 1), Shl(Xor(b, d), k - 1);
      assert Xor(x + sx, y + sy) == Xor(x, y) + sz by { XorSplit(x, b, y, d, k - 1); }
      XorBitsTwice(a, x, i, sx, c, y, j, sy, sz);
    }
  }

  lemma XorBitsTwice(xl: nat, x: nat, a: nat, sx: nat, yl: nat, y: nat, b: nat, sy: nat, sz: nat)
    requires xl == 2 * x + a && yl == 2 * y + b && a <= 1 && b <= 1
    requires Xor(x + sx, y + sy) == Xor(x, y) + sz
    ensures Xor(xl + 2 * sx, yl + 2 * sy) == Xor(xl, yl) + 2 * sz
  {
    XorJoin(xl + 2 * sx, x + sx, a, yl + 2 * sy, y + sy, b);
    XorJoin(xl, x, a, yl, y, b);
  }
}
