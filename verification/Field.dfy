/** Congruence modulo 2^255 - 19. */
module Field {
  import opened Bits

  const Q: nat := 0x7FFFFFFF_FFFFFFFF_FFFFFFFF_FFFFFFFF_FFFFFFFF_FFFFFFFF_FFFFFFFF_FFFFFFED
  const P255: nat := 0x80000000_00000000_00000000_00000000_00000000_00000000_00000000_00000000

  /** a mod q, folded.  Here and wherever else a definition takes a depth, the recursion on it computes
      nothing: it keeps the verifier from unfolding the definition at every use, because only a lemma
      that counts the depth down gets to its body.  Proofs then treat it as an unknown with the
      properties stated about it.  Here that means that no product of coordinates meets a `%`. */
  ghost function Residue(a: int, depth: nat): int
    decreases depth, a
  {
    if depth == 0 then a % Q else Residue(a, depth - 1)
  }

  ghost predicate Cong(a: int, b: int) {
    Residue(a, 7) == Residue(b, 7)
  }

  lemma ResidueIs(a: int)
    ensures Residue(a, 7) == a % Q
  {
    assert Residue(a, 7) == Residue(a, 6) == Residue(a, 5) == Residue(a, 4);
    assert Residue(a, 4) == Residue(a, 3) == Residue(a, 2) == Residue(a, 1) == Residue(a, 0);
  }

  lemma CongIsMod(a: int, b: int)
    ensures Cong(a, b) <==> a % Q == b % Q
  {
    ResidueIs(a);
    ResidueIs(b);
  }

  /** Numbers that differ by a multiple of q have the same remainder, and conversely. */
  lemma CongShift(a: int, b: int, k: int)
    requires a == b + k * Q
    ensures Cong(a, b)
  {
    CongIsMod(a, b);
    DivModUnique(a, Q, b / Q + k, b % Q);
  }

  lemma CongWitness(a: int, b: int) returns (k: int)
    requires Cong(a, b)
    ensures a == b + k * Q
  {
    CongIsMod(a, b);
    k := a / Q - b / Q;
  }

  lemma CongAdd(a: int, a': int, b: int, b': int)
    requires Cong(a, a') && Cong(b, b')
    ensures Cong(a + b, a' + b') && Cong(a - b, a' - b')
  {
    var j := CongWitness(a, a');
    var k := CongWitness(b, b');
    CongShift(a + b, a' + b', j + k);
    CongShift(a - b, a' - b', j - k);
  }

  lemma CongMul(a: int, a': int, b: int, b': int)
    requires Cong(a, a') && Cong(b, b')
    ensures Cong(a * b, a' * b')
  {
    var j := CongWitness(a, a');
    var k := CongWitness(b, b');
    MulWitness(a', j, b', k, Q);
    CongShift(a * b, a' * b', j * b' + a' * k + j * k * Q);
  }

  lemma MulWitness(a: int, j: int, b: int, k: int, q: int)
    ensures (a + j * q) * (b + k * q) == a * b + (j * b + a * k + j * k * q) * q
  {
  }

  function Pow(x: int, e: nat): int
    decreases e, x
  {
    if e == 0 then 1 else x * Pow(x, e - 1)
  }

  lemma {:induction false} PowAdd(x: int, a: nat, b: nat)
    ensures Pow(x, a + b) == Pow(x, a) * Pow(x, b)
    decreases a
  {
    if a > 0 {
      PowAdd(x, a - 1, b);
      assert Pow(x, a + b) == x * Pow(x, a - 1 + b);
    }
  }

  /** v is congruent to x^e. */
  ghost predicate IsPower(v: int, x: int, e: nat) {
    Cong(v, Pow(x, e))
  }

  lemma PowerProduct(v: int, w: int, u: int, x: int, a: nat, b: nat)
    requires IsPower(v, x, a) && IsPower(w, x, b) && Cong(u, v * w)
    ensures IsPower(u, x, a + b)
  {
    CongMul(v, Pow(x, a), w, Pow(x, b));
    PowAdd(x, a, b);
  }
}
