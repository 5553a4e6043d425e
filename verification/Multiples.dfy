/** Integer multiples in the curve group. */
module Multiples {
  import opened Edwards

  function Times(g: Group, n: nat, p: Point): Point {
    if n == 0 then g.zero else g.add(Times(g, n - 1, p), p)
  }

  /** Multiples by any integer. */
  function Scale(g: Group, n: int, p: Point): Point {
    if n >= 0 then Times(g, n, p) else Times(g, -n, g.Neg(p))
  }

  lemma {:induction false} TimesOnCurve(g: Group, n: nat, p: Point)
    requires g.EdwardsGroup() && OnCurve(p)
    ensures OnCurve(Times(g, n, p))
  {
    if n == 0 {
      ZeroOnCurve();
    } else {
      TimesOnCurve(g, n - 1, p);
      Closed(g, Times(g, n - 1, p), p);
    }
  }

  lemma ScaleOnCurve(g: Group, n: int, p: Point)
    requires g.EdwardsGroup() && OnCurve(p)
    ensures OnCurve(Scale(g, n, p))
  {
    NegOnCurve(g, p);
    if n >= 0 {
      TimesOnCurve(g, n, p);
    } else {
      TimesOnCurve(g, -n, g.Neg(p));
    }
  }

  lemma ScaleSucc(g: Group, n: int, p: Point)
    requires g.EdwardsGroup() && OnCurve(p)
    ensures Scale(g, n + 1, p) == g.add(Scale(g, n, p), p)
  {
    if n < 0 {
      var q, t := g.Neg(p), Times(g, -n - 1, g.Neg(p));
      NegOnCurve(g, p);
      TimesOnCurve(g, -n - 1, q);
      Associate(g, t, q, p);
      Commute(g, q, p);
      Neutral(g, p);
      Neutral(g, t);
    }
  }

  /** The cancellation law. */
  lemma Cancel(g: Group, a: Point, b: Point, p: Point)
    requires g.EdwardsGroup() && OnCurve(a) && OnCurve(b) && OnCurve(p) && g.add(a, p) == g.add(b, p)
    ensures a == b
  {
    NegOnCurve(g, p);
    Associate(g, a, p, g.Neg(p));
    Associate(g, b, p, g.Neg(p));
    Neutral(g, p);
    Neutral(g, a);
    Neutral(g, b);
  }

  lemma {:induction false} ScaleAdd(g: Group, a: int, b: int, p: Point)
    requires g.EdwardsGroup() && OnCurve(p)
    ensures Scale(g, a + b, p) == g.add(Scale(g, a, p), Scale(g, b, p))
    decreases if b >= 0 then b else -b
  {
    ScaleOnCurve(g, a, p);
    if b == 0 {
      Neutral(g, Scale(g, a, p));
    } else if b > 0 {
      ScaleAdd(g, a, b - 1, p);
      ScaleStep(g, a, b - 1, p);
    } else {
      ScaleAdd(g, a, b + 1, p);
      ScaleStep(g, a, b, p);
      ScaleOnCurve(g, b, p);
      ScaleOnCurve(g, a + b, p);
      Closed(g, Scale(g, a, p), Scale(g, b, p));
      Cancel(g, Scale(g, a + b, p), g.add(Scale(g, a, p), Scale(g, b, p)), p);
    }
  }

  lemma ScaleStep(g: Group, a: int, b: int, p: Point)
    requires g.EdwardsGroup() && OnCurve(p)
    ensures g.add(Scale(g, a, p), Scale(g, b + 1, p)) == g.add(g.add(Scale(g, a, p), Scale(g, b, p)), p)
    ensures Scale(g, a + b + 1, p) == g.add(Scale(g, a + b, p), p)
  {
    ScaleSucc(g, b, p);
    ScaleSucc(g, a + b, p);
    ScaleOnCurve(g, a, p);
    ScaleOnCurve(g, b, p);
    Associate(g, Scale(g, a, p), Scale(g, b, p), p);
  }

  lemma NegIsScale(g: Group, n: int, p: Point)
    requires g.EdwardsGroup() && OnCurve(p)
    ensures g.Neg(Scale(g, n, p)) == Scale(g, -n, p)
  {
    var s := Scale(g, n, p);
    ScaleOnCurve(g, n, p);
    ScaleOnCurve(g, -n, p);
    NegOnCurve(g, s);
    ScaleAdd(g, n, -n, p);
    Neutral(g, s);
    Commute(g, s, g.Neg(s));
    Commute(g, s, Scale(g, -n, p));
    Cancel(g, g.Neg(s), Scale(g, -n, p), s);
  }

  /** a P + b R. */
  function Combine(g: Group, a: int, p: Point, b: int, r: Point): Point {
    g.add(Scale(g, a, p), Scale(g, b, r))
  }

  lemma CombineOnCurve(g: Group, a: int, p: Point, b: int, r: Point)
    requires g.EdwardsGroup() && OnCurve(p) && OnCurve(r)
    ensures OnCurve(Combine(g, a, p, b, r))
  {
    ScaleOnCurve(g, a, p);
    ScaleOnCurve(g, b, r);
    Closed(g, Scale(g, a, p), Scale(g, b, r));
  }

  lemma Exchange(g: Group, a: Point, b: Point, c: Point, d: Point)
    requires g.EdwardsGroup() && OnCurve(a) && OnCurve(b) && OnCurve(c) && OnCurve(d)
    ensures g.add(g.add(a, b), g.add(c, d)) == g.add(g.add(a, c), g.add(b, d))
  {
    Closed(g, c, d); Closed(g, b, d);
    Associate(g, a, b, g.add(c, d));
    Associate(g, b, c, d);
    Commute(g, b, c);
    Associate(g, c, b, d);
    Associate(g, a, c, g.add(b, d));
  }

  lemma CombineAdd(g: Group, a: int, b: int, c: int, d: int, p: Point, r: Point)
    requires g.EdwardsGroup() && OnCurve(p) && OnCurve(r)
    ensures g.add(Combine(g, a, p, b, r), Combine(g, c, p, d, r)) == Combine(g, a + c, p, b + d, r)
  {
    ScaleOnCurve(g, a, p); ScaleOnCurve(g, b, r); ScaleOnCurve(g, c, p); ScaleOnCurve(g, d, r);
    Exchange(g, Scale(g, a, p), Scale(g, b, r), Scale(g, c, p), Scale(g, d, r));
    ScaleAdd(g, a, c, p);
    ScaleAdd(g, b, d, r);
  }
}
