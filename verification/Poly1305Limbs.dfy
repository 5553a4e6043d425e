/** One multiplication step of poly1305_auth (chapoly/poly1305.c): five 26-bit limbs in 32-bit words. */
module Poly1305Limbs {
  import opened Bits

  const PRIME: nat := 0x3_FFFFFFFF_FFFFFFFF_FFFFFFFF_FFFFFFFB
  const A1: nat := 0x4000000
  const A2: nat := 0x10000000000000
  const A3: nat := 0x40000000000000000000
  const A4: nat := 0x100000000000000000000000000

  /** Five limbs, of the accumulator or of the multiplier. */
  datatype Limbs5 = Limbs5(l0: u32, l1: u32, l2: u32, l3: u32, l4: u32)

  function Number(h: Limbs5): nat {
    h.l0 + A1 * h.l1 + A2 * h.l2 + A3 * h.l3 + A4 * h.l4
  }

  /** The accumulator after a block is added.  This is what makes the truncated carries exact. */
  ghost predicate Ready(h: Limbs5) {
    h.l0 <= 2885681152 && h.l1 < 0x8000000 && h.l2 < 0x8000000 && h.l3 < 0x8000000 && h.l4 < 0x6000000
  }

  /** The accumulator after a multiplication. */
  ghost predicate Settled(h: Limbs5) {
    h.l0 <= 2885681152 - 0x3FFFFFF && h.l1 < A1 && h.l2 < A1 && h.l3 < A1 && h.l4 < A1
  }

  /** The clamped multiplier. */
  ghost predicate Clamped(r: Limbs5) {
    r.l0 <= 0x3FFFFFF && r.l1 <= 0x3FFFF03 && r.l2 <= 0x3FFC0FF && r.l3 <= 0x3F03FFF && r.l4 <= 0xFFFFF
  }

  /** A sum of five 64-bit products, with its wrap-around. */
  function Sum5(a: u64, b: u64, c: u64, d: u64, e: u64): (r: u64)
    ensures a + b + c + d + e < B64 ==> r == a + b + c + d + e
  {
    Add64(Add64(Add64(Add64(a, b), c), d), e)
  }

  lemma Bound5(a: nat, A: nat, x: nat, X: nat, b: nat, B: nat, y: nat, Y: nat, c: nat, C: nat, z: nat, Z: nat,
               d: nat, D: nat, w: nat, W: nat, e: nat, E: nat, v: nat, U: nat)
    requires a <= A && b <= B && c <= C && d <= D && e <= E && x <= X && y <= Y && z <= Z && w <= W && v <= U
    ensures a * x + b * y + c * z + d * w + e * v <= A * X + B * Y + C * Z + D * W + E * U
  {
    MulLe(a, A, x, X); MulLe(b, B, y, Y); MulLe(c, C, z, Z); MulLe(d, D, w, W); MulLe(e, E, v, U);
  }

  /** The five column sums t[0..4]. */
  datatype Columns = Columns(t0: u64, t1: u64, t2: u64, t3: u64, t4: u64)

  ghost predicate ColumnsBounded(t: Columns) {
    t.t0 <= 318_000_000_000_000_000 && t.t1 <= 282_000_000_000_000_000 && t.t2 <= 246_000_000_000_000_000
    && t.t3 <= 219_000_000_000_000_000 && t.t4 <= 36_700_000_000_000_000
  }

  ghost predicate ColumnsOf(t: Columns, h: Limbs5, r: Limbs5) {
    && t.t0 == h.l0 * r.l0 + h.l1 * (5 * r.l4) + h.l2 * (5 * r.l3) + h.l3 * (5 * r.l2) + h.l4 * (5 * r.l1)
    && t.t1 == h.l0 * r.l1 + h.l1 * r.l0 + h.l2 * (5 * r.l4) + h.l3 * (5 * r.l3) + h.l4 * (5 * r.l2)
    && t.t2 == h.l0 * r.l2 + h.l1 * r.l1 + h.l2 * r.l0 + h.l3 * (5 * r.l4) + h.l4 * (5 * r.l3)
    && t.t3 == h.l0 * r.l3 + h.l1 * r.l2 + h.l2 * r.l1 + h.l3 * r.l0 + h.l4 * (5 * r.l4)
    && t.t4 == h.l0 * r.l4 + h.l1 * r.l3 + h.l2 * r.l2 + h.l3 * r.l1 + h.l4 * r.l0
  }

  /** The products, each column within its bound, so that no 64-bit sum wraps. */
  method Multiply(h: Limbs5, r: Limbs5) returns (t: Columns)
    requires Ready(h) && Clamped(r)
    ensures ColumnsOf(t, h, r) && ColumnsBounded(t)
  {
    var s1, s2, s3, s4 := Mul32(r.l1, 5), Mul32(r.l2, 5), Mul32(r.l3, 5), Mul32(r.l4, 5);
    ColumnBounds(h, r, s1, s2, s3, s4);
    var t0 := Sum5(Mul64(h.l0, r.l0), Mul64(h.l1, s4), Mul64(h.l2, s3), Mul64(h.l3, s2), Mul64(h.l4, s1));
    var t1 := Sum5(Mul64(h.l0, r.l1), Mul64(h.l1, r.l0), Mul64(h.l2, s4), Mul64(h.l3, s3), Mul64(h.l4, s2));
    var t2 := Sum5(Mul64(h.l0, r.l2), Mul64(h.l1, r.l1), Mul64(h.l2, r.l0), Mul64(h.l3, s4), Mul64(h.l4, s3));
    var t3 := Sum5(Mul64(h.l0, r.l3), Mul64(h.l1, r.l2), Mul64(h.l2, r.l1), Mul64(h.l3, r.l0), Mul64(h.l4, s4));
    var t4 := Sum5(Mul64(h.l0, r.l4), Mul64(h.l1, r.l3), Mul64(h.l2, r.l2), Mul64(h.l3, r.l1), Mul64(h.l4, r.l0));
    t := Columns(t0, t1, t2, t3, t4);
  }

  lemma ColumnBounds(h: Limbs5, r: Limbs5, s1: nat, s2: nat, s3: nat, s4: nat)
    requires Ready(h) && Clamped(r) && s1 == 5 * r.l1 && s2 == 5 * r.l2 && s3 == 5 * r.l3 && s4 == 5 * r.l4
    ensures h.l0 * r.l0 + h.l1 * s4 + h.l2 * s3 + h.l3 * s2 + h.l4 * s1 <= 318_000_000_000_000_000
    ensures h.l0 * r.l1 + h.l1 * r.l0 + h.l2 * s4 + h.l3 * s3 + h.l4 * s2 <= 282_000_000_000_000_000
    ensures h.l0 * r.l2 + h.l1 * r.l1 + h.l2 * r.l0 + h.l3 * s4 + h.l4 * s3 <= 246_000_000_000_000_000
    ensures h.l0 * r.l3 + h.l1 * r.l2 + h.l2 * r.l1 + h.l3 * r.l0 + h.l4 * s4 <= 219_000_000_000_000_000
    ensures h.l0 * r.l4 + h.l1 * r.l3 + h.l2 * r.l2 + h.l3 * r.l1 + h.l4 * r.l0 <= 36_700_000_000_000_000
  {
    var H0, H, H4 := 2885681152, 0x7FFFFFF, 0x5FFFFFF;
    var R0, R1, R2, R3, R4 := 0x3FFFFFF, 0x3FFFF03, 0x3FFC0FF, 0x3F03FFF, 0xFFFFF;
    Bound5(h.l0, H0, r.l0, R0, h.l1, H, s4, 5 * R4, h.l2, H, s3, 5 * R3, h.l3, H, s2, 5 * R2, h.l4, H4, s1, 5 * R1);
    Bound5(h.l0, H0, r.l1, R1, h.l1, H, r.l0, R0, h.l2, H, s4, 5 * R4, h.l3, H, s3, 5 * R3, h.l4, H4, s2, 5 * R2);
    Bound5(h.l0, H0, r.l2, R2, h.l1, H, r.l1, R1, h.l2, H, r.l0, R0, h.l3, H, s4, 5 * R4, h.l4, H4, s3, 5 * R3);
    Bound5(h.l0, H0, r.l3, R3, h.l1, H, r.l2, R2, h.l2, H, r.l1, R1, h.l3, H, r.l0, R0, h.l4, H4, s4, 5 * R4);
    Bound5(h.l0, H0, r.l4, R4, h.l1, H, r.l3, R3, h.l2, H, r.l2, R2, h.l3, H, r.l1, R1, h.l4, H4, r.l0, R0);
  }

  function ColumnsNumber(t: Columns): nat {
    t.t0 + A1 * t.t1 + A2 * t.t2 + A3 * t.t3 + A4 * t.t4
  }

  /** `h & 0x3ffffff` and the carry; the 32-bit truncation of the carry loses nothing. */
  method CarryLimb(t: u64) returns (h: u32, b: u32)
    ensures h < A1 && (t < A1 * B32 ==> t == h + A1 * b)
  {
    Pow2Add(16, 10);
    Pow2Words();
    LowBits(t);
    h := Mask(Low32(t), 26, A1);
    b := Low32(t / A1);
  }

  lemma LowBits(t: u64)
    ensures Low32(t) % A1 == t % A1 && (t < A1 * B32 ==> Low32(t / A1) == t / A1)
  {
    DivModUnique(Low32(t), A1, t / A1 - 64 * (t / B32), t % A1);
  }

  /** The first carry is kept in 64 bits: it can exceed 2^32. */
  method CarryFirst(t: u64) returns (h: u32, c: u64)
    ensures h < A1 && t == h + A1 * c
  {
    Pow2Add(16, 10);
    Pow2Words();
    LowBits(t);
    h := Mask(Low32(t), 26, A1);
    c := t / A1;
  }

  /** The carry chain, with bits from 2^130 up folded back times 5. */
  method CarryColumns(t: Columns) returns (h: Limbs5, ghost b: nat)
    requires ColumnsBounded(t)
    ensures Settled(h)
    ensures ColumnsNumber(t) == Number(h) + PRIME * b
  {
    var h0, c := CarryFirst(t.t0);
    var t1 := Add64(t.t1, c);
    var h1, b1 := CarryLimb(t1);
    var t2 := Add64(t.t2, b1);
    var h2, b2 := CarryLimb(t2);
    var t3 := Add64(t.t3, b2);
    var h3, b3 := CarryLimb(t3);
    var t4 := Add64(t.t4, b3);
    var h4, b4 := CarryLimb(t4);
    var h0' := Add32(h0, Mul32(b4, 5));
    h := Limbs5(h0', h1, h2, h3, h4);
    b := b4;
    CarriesAddUp(t, h, h0, c, b1, b2, b3, b4);
  }

  lemma CarriesAddUp(t: Columns, h: Limbs5, h0: int, c: int, b1: int, b2: int, b3: int, b4: int)
    requires t.t0 == h0 + A1 * c && t.t1 + c == h.l1 + A1 * b1 && t.t2 + b1 == h.l2 + A1 * b2
    requires t.t3 + b2 == h.l3 + A1 * b3 && t.t4 + b3 == h.l4 + A1 * b4 && h.l0 == h0 + 5 * b4
    ensures ColumnsNumber(t) == Number(h) + PRIME * b4
  {
  }

  /** The number with limbs x0..x4, which may be larger than a word. */
  function Wide(x0: int, x1: int, x2: int, x3: int, x4: int): int {
    x0 + A1 * x1 + A2 * x2 + A3 * x3 + A4 * x4
  }

  lemma Row(c: int, x0: int, x1: int, x2: int, x3: int, x4: int)
    ensures c * Wide(x0, x1, x2, x3, x4) == c * x0 + A1 * (c * x1) + A2 * (c * x2) + A3 * (c * x3) + A4 * (c * x4)
  {
    Distribute5(x0, A1 * x1, A2 * x2, A3 * x3, A4 * x4, c);
    Assoc(A1, x1, c); Assoc(A2, x2, c); Assoc(A3, x3, c); Assoc(A4, x4, c);
  }

  lemma Distribute5(a: int, b: int, c: int, d: int, e: int, x: int)
    ensures x * (a + b + c + d + e) == x * a + x * b + x * c + x * d + x * e
  {
  }

  lemma Assoc(a: int, b: int, x: int)
    ensures x * (a * b) == a * (x * b)
  {
  }

  /** Limb c at weight a: its row, with limbs from 2^130 up folded back times 5. */
  lemma FoldedRow(c: int, a: int, n: int, row: int, k: int)
    requires a * n == row + PRIME * k
    ensures a * (c * n) == c * row + PRIME * (c * k)
  {
    assert a * (c * n) == c * (a * n);
    assert c * (PRIME * k) == PRIME * (c * k);
  }

  /** The column sums are the product, up to a multiple of the prime. */
  lemma ColumnsAreProduct(t: Columns, h: Limbs5, r: Limbs5) returns (k: int)
    requires ColumnsOf(t, h, r)
    ensures Number(h) * Number(r) == ColumnsNumber(t) + PRIME * k
  {
    var n := Number(r);
    var w1, k1 := ShiftedRow1(r);
    var w2, k2 := ShiftedRow2(r);
    var w3, k3 := ShiftedRow3(r);
    var w4, k4 := ShiftedRow4(r);
    RowsSum(t, h, r, n, w1, w2, w3, w4);
    k := AddRows(n, h, w1, k1, w2, k2, w3, k3, w4, k4);
  }

  lemma ShiftedRow1(r: Limbs5) returns (w: int, k: int)
    ensures w == Wide(5 * r.l4, r.l0, r.l1, r.l2, r.l3) && A1 * Number(r) == w + PRIME * k
  {
    w, k := Wide(5 * r.l4, r.l0, r.l1, r.l2, r.l3), r.l4;
  }

  lemma ShiftedRow2(r: Limbs5) returns (w: int, k: int)
    ensures w == Wide(5 * r.l3, 5 * r.l4, r.l0, r.l1, r.l2) && A2 * Number(r) == w + PRIME * k
  {
    w, k := Wide(5 * r.l3, 5 * r.l4, r.l0, r.l1, r.l2), r.l3 + A1 * r.l4;
  }

  lemma ShiftedRow3(r: Limbs5) returns (w: int, k: int)
    ensures w == Wide(5 * r.l2, 5 * r.l3, 5 * r.l4, r.l0, r.l1) && A3 * Number(r) == w + PRIME * k
  {
    w, k := Wide(5 * r.l2, 5 * r.l3, 5 * r.l4, r.l0, r.l1), r.l2 + A1 * r.l3 + A2 * r.l4;
  }

  lemma ShiftedRow4(r: Limbs5) returns (w: int, k: int)
    ensures w == Wide(5 * r.l1, 5 * r.l2, 5 * r.l3, 5 * r.l4, r.l0) && A4 * Number(r) == w + PRIME * k
  {
    w, k := Wide(5 * r.l1, 5 * r.l2, 5 * r.l3, 5 * r.l4, r.l0), r.l1 + A1 * r.l2 + A2 * r.l3 + A3 * r.l4;
  }

  lemma AddRows(n: int, h: Limbs5, w1: int, k1: int, w2: int, k2: int, w3: int, k3: int, w4: int, k4: int) returns (k: int)
    requires A1 * n == w1 + PRIME * k1 && A2 * n == w2 + PRIME * k2
    requires A3 * n == w3 + PRIME * k3 && A4 * n == w4 + PRIME * k4
    ensures Number(h) * n == h.l0 * n + h.l1 * w1 + h.l2 * w2 + h.l3 * w3 + h.l4 * w4 + PRIME * k
  {
    FoldedRow(h.l1, A1, n, w1, k1);
    FoldedRow(h.l2, A2, n, w2, k2);
    FoldedRow(h.l3, A3, n, w3, k3);
    FoldedRow(h.l4, A4, n, w4, k4);
    Row(n, h.l0, h.l1, h.l2, h.l3, h.l4);
    k := h.l1 * k1 + h.l2 * k2 + h.l3 * k3 + h.l4 * k4;
  }

  lemma RowsSum(t: Columns, h: Limbs5, r: Limbs5, w0: int, w1: int, w2: int, w3: int, w4: int)
    requires ColumnsOf(t, h, r)
    requires w0 == Wide(r.l0, r.l1, r.l2, r.l3, r.l4) && w1 == Wide(5 * r.l4, r.l0, r.l1, r.l2, r.l3)
    requires w2 == Wide(5 * r.l3, 5 * r.l4, r.l0, r.l1, r.l2) && w3 == Wide(5 * r.l2, 5 * r.l3, 5 * r.l4, r.l0, r.l1)
    requires w4 == Wide(5 * r.l1, 5 * r.l2, 5 * r.l3, 5 * r.l4, r.l0)
    ensures ColumnsNumber(t) == h.l0 * w0 + h.l1 * w1 + h.l2 * w2 + h.l3 * w3 + h.l4 * w4
  {
    Row(h.l0, r.l0, r.l1, r.l2, r.l3, r.l4);
    Row(h.l1, 5 * r.l4, r.l0, r.l1, r.l2, r.l3);
    Row(h.l2, 5 * r.l3, 5 * r.l4, r.l0, r.l1, r.l2);
    Row(h.l3, 5 * r.l2, 5 * r.l3, 5 * r.l4, r.l0, r.l1);
    Row(h.l4, 5 * r.l1, 5 * r.l2, 5 * r.l3, 5 * r.l4, r.l0);
  }

  /** One poly1305_donna_mul step: h * r modulo 2^130 - 5. */
  method MulStep(h: Limbs5, r: Limbs5) returns (h': Limbs5)
    requires Ready(h) && Clamped(r)
    ensures Settled(h')
    ensures Number(h') % PRIME == (Number(h) * Number(r)) % PRIME
  {
    var t := Multiply(h, r);
    ghost var k := ColumnsAreProduct(t, h, r);
    ghost var b;
    h', b := CarryColumns(t);
    SameResidue(Number(h) * Number(r), Number(h'), b + k);
  }

  lemma SameResidue(a: int, b: int, k: int)
    requires a == b + PRIME * k
    ensures a % PRIME == b % PRIME
  {
    DivModUnique(a, PRIME, b / PRIME + k, b % PRIME);
  }
}
