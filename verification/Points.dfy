/** Group elements as integer combinations of a base point A, the generator G and the point U of
    unknown logarithm. This is the free abelian group on three generators: an identity proved in it
    holds for any three elements of any abelian group, in particular on the curve. Two combinations
    denote the same curve point when their coefficients agree modulo the group order. */
module Points {
  import opened Congruence
  import opened ScalarMul

  datatype Point = Point(a: int, g: int, u: int)

  const INFINITY := Point(0, 0, 0)
  const BASE_G := Point(0, 1, 0)
  const BASE_U := Point(0, 0, 1)

  function Plus(p: Point, q: Point): Point {
    Point(p.a + q.a, p.g + q.g, p.u + q.u)
  }

  function Neg(p: Point): Point {
    Point(-p.a, -p.g, -p.u)
  }

  function Double(p: Point): Point {
    Plus(p, p)
  }

  function Times(k: int, p: Point): Point {
    Point(k * p.a, k * p.g, k * p.u)
  }

  /** The same curve point: coefficients equal modulo the group order. */
  ghost predicate Same(p: Point, q: Point) {
    Cong(p.a, q.a, N) && Cong(p.g, q.g, N) && Cong(p.u, q.u, N)
  }

  lemma {:induction false} TimesSum(k: int, l: int, p: Point)
    ensures Times(k + l, p) == Plus(Times(k, p), Times(l, p))
    ensures Times(k - l, p) == Plus(Times(k, p), Neg(Times(l, p)))
    ensures Times(-l, p) == Neg(Times(l, p))
  {
  }

  lemma {:induction false} TimesTimes(k: int, l: int, p: Point)
    ensures Times(k, Times(l, p)) == Times(k * l, p)
  {
  }

  lemma {:induction false} TimesTwice(k: int, p: Point)
    ensures Double(Times(k, p)) == Times(2 * k, p) && Times(0, p) == INFINITY && Times(1, p) == p
  {
  }

  /** Congruent multipliers give the same point. */
  lemma {:induction false} SameMultiples(k: int, k': int, p: Point)
    requires Cong(k, k', N)
    ensures Same(Times(k, p), Times(k', p))
  {
    CongRefl(p.a, N);
    CongRefl(p.g, N);
    CongRefl(p.u, N);
    CongMul(k, k', p.a, p.a, N);
    CongMul(k, k', p.g, p.g, N);
    CongMul(k, k', p.u, p.u, N);
  }

  lemma {:induction false} SamePlus(p: Point, p': Point, q: Point, q': Point)
    requires Same(p, p') && Same(q, q')
    ensures Same(Plus(p, q), Plus(p', q'))
  {
    CongAdd(p.a, p'.a, q.a, q'.a, N);
    CongAdd(p.g, p'.g, q.g, q'.g, N);
    CongAdd(p.u, p'.u, q.u, q'.u, N);
  }

  lemma {:induction false} SameRefl(p: Point)
    ensures Same(p, p)
  {
    CongRefl(p.a, N);
    CongRefl(p.g, N);
    CongRefl(p.u, N);
  }

  lemma {:induction false} SameTrans(p: Point, q: Point, r: Point)
    requires Same(p, q) && Same(q, r)
    ensures Same(p, r)
  {
    CongTrans(p.a, q.a, r.a, N);
    CongTrans(p.g, q.g, r.g, N);
    CongTrans(p.u, q.u, r.u, N);
  }

  lemma {:induction false} NoRows(p: Point, x: Point, y: Point)
    ensures Plus(p, Plus(Times(0, x), Times(0, y))) == p
  {
    assert Times(0, x) == INFINITY && Times(0, y) == INFINITY;
    hide Times;
  }
}
