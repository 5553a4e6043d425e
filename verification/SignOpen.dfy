/** Signatures open: the law that ties crypto_sign_ed25519 to crypto_sign_ed25519_open. */
module SignOpen {
  import opened Bits
  import opened Limbs
  import opened Fe25519
  import opened Edwards
  import opened Multiples
  import opened Sc25519
  import opened PointEncode
  import opened PointDecode
  import opened Ed25519

  /** The point recomputed for the key decoded to -A is R. */
  lemma RecomputedIsR(u: Suite, c: Curve, sm: seq<byte>, m: seq<byte>, pk: seq<byte>, sk: seq<byte>, t: Products, a: Point)
    requires Sound(u, c) && |sk| == 64 && pk == sk[32..] && Signed(u, c, sm, m, sk, t)
    requires a == c.g.Neg(KeyPoint(u, c, sk[..32]))
    ensures Recomputed(u, c, sm, pk, a) == NoncePoint(u, c, sk[..32], m)
  {
    var h, s := Challenge(u, sm[..32], pk, m), Value(sm[32..64]);
    ResponseEquation(c, SecretScalar(u, sk[..32]), h, Nonce(u, sk[..32], m), s);
  }

  lemma ResponseEquation(c: Curve, x: nat, h: nat, k: nat, s: int)
    requires c.g.EdwardsGroup() && OnCurve(c.b) && Scale(c.g, M, c.b) == c.g.zero
    requires s == Response(h, x, k)
    ensures Combine(c.g, h, c.g.Neg(Scale(c.g, x, c.b)), s % M, c.b) == Scale(c.g, k, c.b)
  {
    MulLe(0, h, 0, x);
    var q, r := Euclid(h * x + k, M);
    DivModUnique(s, M, 0, s);
    VerifyEquation(c, x, h, k, s, q);
  }

  /** Strings of bytes with the same number are equal. */
  lemma SameBytes(r: seq<byte>, s: seq<byte>)
    requires |r| == |s| == 32
    ensures r == s <==> Value(r) == Value(s)
  {
    if Value(r) == Value(s) {
      VInjective(r, s, 32);
    }
  }

  /** With A and R packed canonically, and A decoded cleanly, the comparison of R with the recomputed
      point succeeds exactly if that is packed canonically too. */
  lemma SignedIsAccepted(u: Suite, c: Curve, sm: seq<byte>, m: seq<byte>, pk: seq<byte>, sk: seq<byte>,
                         ta: Products, tr: Products, o: Opening)
    requires Sound(u, c) && |sk| == 64 && pk == sk[32..] && PackedAs(pk, KeyPoint(u, c, sk[..32]), ta)
    requires Signed(u, c, sm, m, sk, tr) && Fits(ta) && Fits(tr)
    requires !o.TooShort? && Decodes(o, c, pk, KeyPoint(u, c, sk[..32])) && Clean(o.tr) && Below(o.tr.root)
    requires o.Compared? ==> PackedAs(o.t2, Recomputed(u, c, sm, pk, o.a), o.t)
    ensures o.Compared? && (sm[..32] == o.t2 <==> Fits(o.t))
  {
    ScaleOnCurve(c.g, SecretScalar(u, sk[..32]), c.b);
    RecomputedIsR(u, c, sm, m, pk, sk, tr, o.a);
    SameBytes(sm[..32], o.t2);
  }

  /** Points with no coordinate close to 0. */
  ghost predicate Ordinary(p: Point) {
    Plain(p) && Decodable(p)
  }

  /** An ordinary key decodes, and an ordinary R is packed canonically every time. */
  lemma OrdinaryIsAccepted(u: Suite, c: Curve, sm: seq<byte>, m: seq<byte>, pk: seq<byte>, sk: seq<byte>,
                           ta: Products, tr: Products, o: Opening)
    requires Sound(u, c) && |sk| == 64 && pk == sk[32..] && PackedAs(pk, KeyPoint(u, c, sk[..32]), ta)
    requires Signed(u, c, sm, m, sk, tr) && !o.TooShort? && Decodes(o, c, pk, KeyPoint(u, c, sk[..32]))
    requires o.Compared? ==> PackedAs(o.t2, Recomputed(u, c, sm, pk, o.a), o.t)
    requires Ordinary(KeyPoint(u, c, sk[..32])) && Plain(NoncePoint(u, c, sk[..32], m))
    ensures o.Compared? && sm[..32] == o.t2
  {
    var A := KeyPoint(u, c, sk[..32]);
    ScaleOnCurve(c.g, SecretScalar(u, sk[..32]), c.b);
    PlainFits(ta, A);
    PlainFits(tr, NoncePoint(u, c, sk[..32], m));
    EncodedParts(pk, A);
    DecodableIsClean(o.tr, A);
    SignedIsAccepted(u, c, sm, m, pk, sk, ta, tr, o);
    RecomputedIsR(u, c, sm, m, pk, sk, tr, o.a);
    PlainFits(o.t, NoncePoint(u, c, sk[..32], m));
  }

  /** Generate, sign, open.  With A and R packed below 2^255 and A decoded cleanly, the result is 0
      exactly if R is packed below 2^255 when it is recomputed; for an A and R with no coordinate close
      to 0 all of that holds.  With the result 0 the message comes back unchanged. */
  method RoundTrip(u: Suite, seed: seq<byte>, msg: seq<byte>, ghost c: Curve)
    returns (ret: int, text: seq<byte>, ghost ta: Products, ghost tr: Products, ghost o: Opening)
    requires Sound(u, c) && |seed| == 32 && |msg| < B32
    ensures !o.TooShort?
    ensures IsProducts(ta, KeyPoint(u, c, seed)) && IsProducts(tr, NoncePoint(u, c, seed, msg))
    ensures Fits(ta) && Fits(tr) && Clean(o.tr) && Below(o.tr.root) ==>
      o.Compared? && (ret == 0 <==> Fits(o.t))
    ensures Ordinary(KeyPoint(u, c, seed)) && Plain(NoncePoint(u, c, seed, msg)) ==> ret == 0
    ensures ret == 0 ==> text == msg
  {
    var pk, sk;
    pk, sk, ta := Keypair(u, seed, c);
    assert sk[..32] == seed && sk[32..] == pk;
    var sm := new byte[|msg| + 64];
    tr := Sign(u, sm, msg, sk, c);
    var m := new byte[|msg| + 64];
    var mlen;
    ret, mlen, o := Open(u, m, sm, pk, c, KeyPoint(u, c, seed));
    if Fits(ta) && Fits(tr) && Clean(o.tr) && Below(o.tr.root) {
      SignedIsAccepted(u, c, sm[..], msg, pk, sk, ta, tr, o);
    }
    if Ordinary(KeyPoint(u, c, seed)) && Plain(NoncePoint(u, c, seed, msg)) {
      OrdinaryIsAccepted(u, c, sm[..], msg, pk, sk, ta, tr, o);
    }
    text := if ret == 0 then m[..mlen] else [];
  }
}
