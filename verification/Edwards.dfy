/** The twisted Edwards curve -x^2 + y^2 = 1 + d x^2 y^2 of ed25519/ge25519.c, and its group.

    That the addition law is a group law is a hypothesis here (EdwardsGroup); everything about
    coordinates is proved. */
module Edwards {
  import opened Field

  const D: int := 37095705934669439343138083508754565189542113879843219016388785533085940283555

  datatype Affine = Affine(x: int, y: int)

  /** Affine points in canonical coordinates. */
  type Point = p: Affine | Canonical(p.x, 5) && Canonical(p.y, 5) witness Affine(0, 1)

  /** 0 <= a < q, folded: proofs about products of coordinates do not see the bounds. */
  predicate Canonical(a: int, depth: nat)
    decreases depth, a
  {
    if depth > 0 then Canonical(a, depth - 1) else 0 <= a < Q
  }

  lemma CanonicalIs(a: int)
    ensures Canonical(a, 5) <==> 0 <= a < Q
  {
    assert Canonical(a, 5) == Canonical(a, 4) == Canonical(a, 3) == Canonical(a, 2) == Canonical(a, 1) == Canonical(a, 0);
  }

  /** The curve equation, folded. */
  ghost predicate OnCurve(p: Point) {
    CurveAt(p.x, p.y, 5)
  }

  ghost predicate CurveAt(x: int, y: int, depth: nat)
    decreases depth, x, y
  {
    if depth > 0 then CurveAt(x, y, depth - 1) else Cong(y * y - x * x, 1 + D * ((x * y) * (x * y)))
  }

  lemma CurveIs(x: int, y: int)
    ensures CurveAt(x, y, 5) <==> Cong(y * y - x * x, 1 + D * ((x * y) * (x * y)))
  {
    assert CurveAt(x, y, 5) == CurveAt(x, y, 4) == CurveAt(x, y, 3) == CurveAt(x, y, 2) == CurveAt(x, y, 1) == CurveAt(x, y, 0);
  }

  /** d x1 x2 y1 y2. */
  function Delta(p: Point, q: Point): int {
    D * ((p.x * p.y) * (q.x * q.y))
  }

  ghost predicate IsInverse(a: int, b: int) {
    Cong(a * b, 1)
  }

  ghost predicate Unit(a: int) {
    exists b :: IsInverse(a, b)
  }

  /** s is the sum of p and q by the Edwards addition law, folded. */
  ghost predicate IsSum(p: Point, q: Point, s: Point) {
    SumAt(p, q, s, 5)
  }

  ghost predicate SumAt(p: Point, q: Point, s: Point, depth: nat)
    decreases depth, p
  {
    if depth > 0 then SumAt(p, q, s, depth - 1)
    else
      && Unit(1 + Delta(p, q)) && Unit(1 - Delta(p, q))
      && Cong(s.x * (1 + Delta(p, q)), p.x * q.y + q.x * p.y)
      && Cong(s.y * (1 - Delta(p, q)), p.y * q.y + p.x * q.x)
  }

  lemma SumIs(p: Point, q: Point, s: Point)
    requires IsSum(p, q, s)
    ensures Unit(1 + Delta(p, q)) && Unit(1 - Delta(p, q))
    ensures Cong(s.x * (1 + Delta(p, q)), p.x * q.y + q.x * p.y) && Cong(s.y * (1 - Delta(p, q)), p.y * q.y + p.x * q.x)
  {
    assert SumAt(p, q, s, 5) == SumAt(p, q, s, 4) == SumAt(p, q, s, 3) == SumAt(p, q, s, 2) == SumAt(p, q, s, 1) == SumAt(p, q, s, 0);
  }

  datatype Group = Group(add: (Point, Point) -> Point) {
    /** The neutral element (0, 1). */
    const zero: Point := Affine(0, 1)

    /** (-x, y). */
    function Neg(p: Point): Point {
      CanonicalIs((Q - p.x) % Q);
      Affine((Q - p.x) % Q, p.y)
    }

    /** The points at which a law is used; the laws below fire only where this is mentioned. */
    ghost predicate At(p: Point, q: Point, r: Point) {
      OnCurve(p) && OnCurve(q) && OnCurve(r)
    }

    /** The addition law makes the curve an abelian group. */
    ghost predicate EdwardsGroup() {
      && (forall p, q, r {:trigger At(p, q, r)} :: At(p, q, r) ==>
            OnCurve(add(p, q)) && IsSum(p, q, add(p, q)))
      && (forall p, q, r {:trigger At(p, q, r)} :: At(p, q, r) ==>
            add(p, q) == add(q, p) && add(add(p, q), r) == add(p, add(q, r)))
      && (forall p, q, r {:trigger At(p, q, r)} :: At(p, q, r) ==>
            add(p, zero) == p && add(p, Neg(p)) == zero)
    }
  }

  lemma Closed(g: Group, p: Point, q: Point)
    requires g.EdwardsGroup() && OnCurve(p) && OnCurve(q)
    ensures OnCurve(g.add(p, q)) && IsSum(p, q, g.add(p, q))
  {
    assert g.At(p, q, q);
  }

  lemma Commute(g: Group, p: Point, q: Point)
    requires g.EdwardsGroup() && OnCurve(p) && OnCurve(q)
    ensures g.add(p, q) == g.add(q, p)
  {
    assert g.At(p, q, q);
  }

  lemma Associate(g: Group, p: Point, q: Point, r: Point)
    requires g.EdwardsGroup() && OnCurve(p) && OnCurve(q) && OnCurve(r)
    ensures g.add(g.add(p, q), r) == g.add(p, g.add(q, r))
  {
    assert g.At(p, q, r);
  }

  lemma Neutral(g: Group, p: Point)
    requires g.EdwardsGroup() && OnCurve(p)
    ensures g.add(p, g.zero) == p && g.add(p, g.Neg(p)) == g.zero
  {
    assert g.At(p, p, p);
  }

  lemma ZeroOnCurve()
    ensures OnCurve(Affine(0, 1))
  {
    CurveIs(0, 1);
  }

  /** (-x, y) is on the curve with (x, y). */
  lemma NegOnCurve(g: Group, p: Point)
    requires OnCurve(p)
    ensures OnCurve(g.Neg(p))
  {
    NegX(p.x);
    NegatedCurve(p.x, p.y, g.Neg(p).x);
  }

  lemma NegatedCurve(x: int, y: int, n: int)
    requires CurveAt(x, y, 5) && Cong(n, -x)
    ensures CurveAt(n, y, 5)
  {
    CurveIs(x, y);
    CurveIs(n, y);
    CongMul(n, -x, n, -x);
    assert -x * -x == x * x;
    CongAdd(y * y, y * y, n * n, x * x);
    CongMul(n, -x, y, y);
    CongMul(n * y, -x * y, n * y, -x * y);
    assert (-x * y) * (-x * y) == (x * y) * (x * y);
    CongMul(D, D, (n * y) * (n * y), (x * y) * (x * y));
    CongAdd(1, 1, D * ((n * y) * (n * y)), D * ((x * y) * (x * y)));
  }

  lemma NegX(x: int)
    ensures Cong((Q - x) % Q, -x)
  {
    CongShift((Q - x) % Q, -x, 1 - (Q - x) / Q);
  }
}
