/** Arithmetic modulo the order of the Ed25519 base point (ed25519/sc25519.c).

    Scalars are 32 little-endian limbs in 32-bit words.  The proofs show that no word wraps, given
    the actual limbs of the order and of its Barrett constant. */
module Sc25519 {
  import opened Bits
  import opened Limbs

  /** The group order m, and floor(2^512 / m). */
  const M: nat := 7237005577332262213973186563042994240857116359379907606001950938285454250989
  const MU: nat := 0x0FFFFFFFFFFFFFFFFFFFFFFFFFFFFFFFEB2106215D086329A7ED9CE5A30A2C131B

  const M_LIMBS: seq<u32> :=
    [0xED, 0xD3, 0xF5, 0x5C, 0x1A, 0x63, 0x12, 0x58, 0xD6, 0x9C, 0xF7, 0xA2, 0xDE, 0xF9, 0xDE, 0x14,
     0x00, 0x00, 0x00, 0x00, 0x00, 0x00, 0x00, 0x00, 0x00, 0x00, 0x00, 0x00, 0x00, 0x00, 0x00, 0x10]

  const MU_LIMBS: seq<u32> :=
    [0x1B, 0x13, 0x2C, 0x0A, 0xA3, 0xE5, 0x9C, 0xED, 0xA7, 0x29, 0x63, 0x08, 0x5D, 0x21, 0x06, 0x21,
     0xEB, 0xFF, 0xFF, 0xFF, 0xFF, 0xFF, 0xFF, 0xFF, 0xFF, 0xFF, 0xFF, 0xFF, 0xFF, 0xFF, 0xFF, 0xFF, 0x0F]

  lemma MOctet0()
    ensures |M_LIMBS| == 32 && Octet(M_LIMBS, 0) == 0x5812631A5CF5D3ED
  {
  }

  lemma MOctet1()
    ensures |M_LIMBS| == 32 && Octet(M_LIMBS, 8) == 0x14DEF9DEA2F79CD6
  {
  }

  lemma MHigh()
    ensures |M_LIMBS| == 32
    ensures Octet(M_LIMBS, 16) == 0 && Octet(M_LIMBS, 24) == 0x1000000000000000
  {
  }

  lemma MLimbsValue()
    ensures |M_LIMBS| == 32 && V(M_LIMBS, 32) == M
  {
    MOctet0(); MOctet1(); MHigh();
    VOctets(M_LIMBS, 0x5812631A5CF5D3ED, 0x14DEF9DEA2F79CD6, 0, 0x1000000000000000);
  }

  lemma MLimbsBytes()
    ensures |M_LIMBS| == 32 && AllBytes(M_LIMBS)
  {
  }

  lemma MuLow()
    ensures |MU_LIMBS| == 33
    ensures Octet(MU_LIMBS, 0) == 0xED9CE5A30A2C131B && Octet(MU_LIMBS, 8) == 0x2106215D086329A7
  {
  }

  lemma MuHigh()
    ensures |MU_LIMBS| == 33 && MU_LIMBS[32] == 0x0F
    ensures Octet(MU_LIMBS, 16) == 0xFFFFFFFFFFFFFFEB && Octet(MU_LIMBS, 24) == 0xFFFFFFFFFFFFFFFF
  {
  }

  lemma MuLimbsValue()
    ensures |MU_LIMBS| == 33 && V(MU_LIMBS, 33) == MU
  {
    MuLow(); MuHigh();
    VOctets(MU_LIMBS, 0xED9CE5A30A2C131B, 0x2106215D086329A7, 0xFFFFFFFFFFFFFFEB, 0xFFFFFFFFFFFFFFFF);
    PLiterals();
  }

  lemma MuLimbsBytes()
    ensures |MU_LIMBS| == 33 && AllBytes(MU_LIMBS)
  {
  }

  /** 1 when a < b, for 16-bit inputs: the sign bit of the wrapped difference. */
  function Lt(a: u32, b: u32): (r: u32)
    requires a < 0x10000 && b < 0x10000
    ensures r == if a < b then 1 else 0
  {
    Sub32(a, b) / 0x8000_0000
  }

  /** One digit of a borrow chain: a - pb, with the outgoing borrow. */
  lemma BorrowStep(x: int, y: int, z: int, xi: int, yi: int, zi: int, pb: int, b: int, p: int)
    requires z == x - y + pb * p
    requires zi == xi - (pb + yi) + 256 * b
    ensures z + zi * p == (x + xi * p) - (y + yi * p) + b * (256 * p)
  {
  }

  /** The borrow chain shared by reduce_add_sub and barrett_reduce: 32 digits of x - y. */
  method Subtract(x: seq<u32>, y: seq<u32>) returns (t: array<u32>, b: u32)
    requires |x| == |y| == 32 && AllBytes(x) && AllBytes(y)
    ensures fresh(t) && t.Length == 32 && AllBytes(t[..]) && b <= 1
    ensures Value(t[..]) == Value(x) - Value(y) + b * P(32)
  {
    t := new u32[32];
    var pb: u32 := 0;
    b := 0;
    for i := 0 to 32
      invariant pb == b <= 1
      invariant forall k :: 0 <= k < i ==> t[k] <= 255
      invariant V(t[..], i) == V(x, i) - V(y, i) + pb * P(i)
    {
      ghost var t0 := t[..];
      pb := Add32(pb, y[i]);
      b := Lt(x[i], pb);
      t[i] := Add32(Sub32(x[i], pb), b * 256);
      BorrowStep(V(x, i), V(y, i), V(t0, i), x[i], y[i], t[i], pb - y[i], b, P(i));
      VSame(t0, t[..], i);
      pb := b;
    }
  }

  /** The masked overwrite at the end of reduce_add_sub. */
  method Overwrite(mask: u32, r: array<u32>, t: array<u32>)
    requires r.Length == t.Length == 32 && r != t && (mask == 0 || mask == ONES32)
    modifies r
    ensures r[..] == if mask == 0 then old(r[..]) else t[..]
  {
    for i := 0 to 32
      invariant forall k :: 0 <= k < i ==> r[k] == if mask == 0 then old(r[k]) else t[k]
      invariant forall k :: i <= k < 32 ==> r[k] == old(r[k])
    {
      MaskedMoveSelects(mask, r[i], t[i]);
      r[i] := MaskedMove(mask, r[i], t[i]);
    }
  }

  function SubtractOnce(x: int): int {
    if x >= M then x - M else x
  }

  /** reduce_add_sub: subtract the order once if the number is at least the order. */
  method ReduceAddSub(r: array<u32>)
    requires r.Length == 32 && AllBytes(r[..])
    modifies r
    ensures AllBytes(r[..])
    ensures Value(r[..]) == SubtractOnce(old(Value(r[..])))
  {
    MLimbsBytes();
    var t, b := Subtract(r[..], M_LIMBS);
    BorrowDecides(r[..], t[..], b);
    Overwrite(Sub32(b, 1), r, t);
  }

  lemma BorrowDecides(x: seq<int>, t: seq<int>, b: int)
    requires |x| == |t| == 32 && AllBytes(x) && AllBytes(t) && 0 <= b <= 1
    requires |M_LIMBS| == 32 && Value(t) == Value(x) - Value(M_LIMBS) + b * P(32)
    ensures b == if Value(x) < M then 1 else 0
    ensures Value(t) == Value(x) - M + b * P(32)
  {
    MLimbsValue();
    PLiterals();
    VBound(x, 32);
    VBound(t, 32);
  }
}
