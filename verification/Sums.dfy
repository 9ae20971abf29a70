/** Doubles as exact reals with a NaN, sums of them over the entries of a map, and the Cauchy-Schwarz inequality. */
module Sums {
  datatype Double = Finite(r: real) | NaN

  type Vector = map<string, Double>

  /** Products and quotients by name, which the solver handles better. */
  function Mul(p: real, q: real): real { p * q }

  function Div(p: real, q: real): real
    requires q != 0.0
  {
    p / q
  }

  function Plus(x: Double, y: Double): Double {
    if x.Finite? && y.Finite? then Finite(x.r + y.r) else NaN
  }

  function Times(x: Double, y: Double): Double {
    if x.Finite? && y.Finite? then Finite(Mul(x.r, y.r)) else NaN
  }

  /** x divides by zero only when it is zero itself, which gives NaN and no infinity. */
  predicate Divides(x: Double, y: Double) { x.Finite? && y == Finite(0.0) ==> x.r == 0.0 }

  function Over(x: Double, y: Double): Double
    requires Divides(x, y)
  {
    if x.Finite? && y.Finite? && y.r != 0.0 then Finite(Div(x.r, y.r)) else NaN
  }

  /** The sum of the values, which the order of the entries does not change. */
  ghost function Sum(v: Vector): Double {
    if v == map[] then Finite(0.0) else var k :| k in v; Plus(v[k], Sum(v - {k}))
  }

  lemma {:induction false} SumRemove(v: Vector, k: string)
    requires k in v
    ensures Sum(v) == Plus(v[k], Sum(v - {k}))
    decreases |v|
  {
    var j :| j in v && Sum(v) == Plus(v[j], Sum(v - {j}));
    if j != k {
      SumRemove(v - {j}, k);
      SumRemove(v - {k}, j);
      assert v - {j} - {k} == v - {k} - {j};
      assert (v - {j})[k] == v[k] && (v - {k})[j] == v[j];
      PlusSwap(v[j], v[k], Sum(v - {j} - {k}));
    }
  }

  lemma PlusSwap(x: Double, y: Double, z: Double)
    ensures Plus(x, Plus(y, z)) == Plus(y, Plus(x, z))
  {
  }

  ghost predicate AllFinite(x: Vector) { forall k :: k in x ==> x[k].Finite? }

  lemma {:induction false} SumFinite(v: Vector)
    ensures Sum(v).Finite? <==> AllFinite(v)
    decreases |v|
  {
    if v != map[] {
      var k :| k in v;
      SumRemove(v, k);
      SumFinite(v - {k});
      assert AllFinite(v) <==> v[k].Finite? && AllFinite(v - {k}) by {
        assert forall j :: j in v - {k} ==> j in v && (v - {k})[j] == v[j];
        assert forall j :: j in v ==> j == k || j in v - {k};
      }
    }
  }

  lemma {:induction false} SumSign(v: Vector)
    requires AllFinite(v) && forall k :: k in v ==> v[k].r >= 0.0
    ensures Sum(v).Finite? && Sum(v).r >= 0.0
    decreases |v|
  {
    if v != map[] {
      var k :| k in v;
      SumRemove(v, k);
      SumSign(v - {k});
    }
  }

  lemma {:induction false} SumZero(v: Vector)
    requires forall k :: k in v ==> v[k] == Finite(0.0)
    ensures Sum(v) == Finite(0.0)
    decreases |v|
  {
    if v != map[] {
      var k :| k in v;
      SumRemove(v, k);
      SumZero(v - {k});
    }
  }

  lemma SumPositive(v: Vector, k: string)
    requires AllFinite(v) && (forall j :: j in v ==> v[j].r >= 0.0) && k in v && v[k].r > 0.0
    ensures Sum(v).Finite? && Sum(v).r > 0.0
  {
    SumRemove(v, k);
    SumSign(v - {k});
  }

  lemma SumAdd(v: Vector, k: string, x: Double)
    requires k !in v
    ensures Sum(v[k := x]) == Plus(x, Sum(v))
  {
    SumRemove(v[k := x], k);
    assert v[k := x] - {k} == v;
  }

  ghost function Products(x: Vector, y: Vector): (r: Vector)
    requires x.Keys <= y.Keys
    ensures r.Keys == x.Keys
  {
    map k | k in x :: Times(x[k], y[k])
  }

  /** X * Y, for the entries of x */
  ghost function Dot(x: Vector, y: Vector): Double
    requires x.Keys <= y.Keys
  {
    Sum(Products(x, y))
  }

  /** |X| squared */
  ghost function Squares(x: Vector): Double { Dot(x, x) }

  lemma DotAdd(x: Vector, y: Vector, k: string, u: Double)
    requires x.Keys <= y.Keys && k !in x && k in y
    ensures Dot(x[k := u], y) == Plus(Times(u, y[k]), Dot(x, y))
  {
    assert Products(x[k := u], y) == Products(x, y)[k := Times(u, y[k])];
    SumAdd(Products(x, y), k, Times(u, y[k]));
  }

  lemma SquaresAdd(x: Vector, k: string, u: Double)
    requires k !in x
    ensures Squares(x[k := u]) == Plus(Times(u, u), Squares(x))
  {
    var x' := x[k := u];
    assert Products(x', x') == Products(x, x)[k := Times(u, u)];
    SumAdd(Products(x, x), k, Times(u, u));
  }

  lemma DotRemove(x: Vector, y: Vector, k: string)
    requires x.Keys <= y.Keys && k in x
    ensures Dot(x, y) == Plus(Times(x[k], y[k]), Dot(x - {k}, y - {k}))
  {
    SumRemove(Products(x, y), k);
    assert Products(x, y) - {k} == Products(x - {k}, y - {k});
  }

  lemma DotFinite(x: Vector, y: Vector)
    requires x.Keys <= y.Keys
    ensures Dot(x, y).Finite? <==> forall k :: k in x ==> x[k].Finite? && y[k].Finite?
  {
    SumFinite(Products(x, y));
    assert forall k :: k in x ==> Products(x, y)[k] == Times(x[k], y[k]);
  }

  lemma DotSign(x: Vector, y: Vector)
    requires x.Keys <= y.Keys && AllFinite(x) && AllFinite(y) && forall k :: k in x ==> Mul(x[k].r, y[k].r) >= 0.0
    ensures Dot(x, y).Finite? && Dot(x, y).r >= 0.0
  {
    hide Mul;
    SumSign(Products(x, y));
  }

  lemma DotPositive(x: Vector, y: Vector, k: string)
    requires x.Keys <= y.Keys && AllFinite(x) && AllFinite(y) && forall j :: j in x ==> Mul(x[j].r, y[j].r) >= 0.0
    requires k in x && Mul(x[k].r, y[k].r) > 0.0
    ensures Dot(x, y).Finite? && Dot(x, y).r > 0.0
  {
    hide Mul;
    SumPositive(Products(x, y), k);
  }

  lemma DotZero(x: Vector, y: Vector)
    requires x.Keys <= y.Keys && forall k :: k in x ==> Times(x[k], y[k]) == Finite(0.0)
    ensures Dot(x, y) == Finite(0.0)
  {
    SumZero(Products(x, y));
  }

  lemma MulPositive(p: real, q: real)
    requires p > 0.0 && q > 0.0
    ensures Mul(p, q) > 0.0
  {
  }

  lemma MulNegative(p: real, q: real)
    requires p < 0.0 && q < 0.0
    ensures Mul(p, q) > 0.0
  {
  }

  lemma MulZero(p: real, q: real)
    requires p == 0.0 || q == 0.0
    ensures Mul(p, q) == 0.0
  {
  }

  lemma MulSign(r: real)
    ensures Mul(r, r) >= 0.0 && (r != 0.0 ==> Mul(r, r) > 0.0) && (r == 0.0 ==> Mul(r, r) == 0.0)
  {
    hide Mul;
    if r > 0.0 {
      MulPositive(r, r);
    } else if r < 0.0 {
      MulNegative(r, r);
    } else {
      MulZero(r, r);
    }
  }

  lemma MulNotZero(p: real, q: real)
    requires p != 0.0 && q != 0.0
    ensures Mul(p, q) != 0.0
  {
  }

  lemma SquaresSign(x: Vector)
    requires AllFinite(x)
    ensures Squares(x).Finite? && Squares(x).r >= 0.0
  {
    hide Mul;
    forall k | k in x ensures Mul(x[k].r, x[k].r) >= 0.0 { MulSign(x[k].r); }
    DotSign(x, x);
  }

  lemma SquaresPositive(x: Vector, k: string)
    requires AllFinite(x) && k in x && x[k].r != 0.0
    ensures Squares(x).Finite? && Squares(x).r > 0.0
  {
    hide Mul;
    forall j | j in x ensures Mul(x[j].r, x[j].r) >= 0.0 { MulSign(x[j].r); }
    MulSign(x[k].r);
    DotPositive(x, x, k);
  }

  lemma SquaresZero(x: Vector)
    requires forall k :: k in x ==> x[k] == Finite(0.0)
    ensures Squares(x) == Finite(0.0)
  {
    MulZero(0.0, 0.0);
    hide Mul;
    DotZero(x, x);
  }

  // ----- the Cauchy-Schwarz inequality -----

  lemma TwiceGeometric(u: real, v: real, w: real)
    requires u >= 0.0 && v >= 0.0 && Mul(w, w) <= Mul(u, v)
    ensures 2.0 * w <= u + v
  {
    SumSquared(u, v);
    MulSign(u - v);
    TwiceSquared(w);
    hide Mul;
    RootOrder(2.0 * w, u + v);
  }

  lemma SumSquared(u: real, v: real)
    ensures Mul(u + v, u + v) == 4.0 * Mul(u, v) + Mul(u - v, u - v)
  {
  }

  lemma TwiceSquared(w: real)
    ensures Mul(2.0 * w, 2.0 * w) == 4.0 * Mul(w, w)
  {
  }

  lemma RootOrder(p: real, q: real)
    requires q >= 0.0 && Mul(p, p) <= Mul(q, q)
    ensures p <= q
  {
    hide Mul;
    if p > q { SquareLess(q, p); }
  }

  lemma SquareLess(p: real, q: real)
    requires 0.0 <= p < q
    ensures Mul(p, p) < Mul(q, q)
  {
    MulPositive(q - p, q + p);
    assert Mul(q - p, q + p) == Mul(q, q) - Mul(p, p);
  }

  lemma CauchyStep(a: real, b: real, c: real, x: real, y: real)
    requires a >= 0.0 && b >= 0.0 && Mul(c, c) <= Mul(a, b)
    ensures Mul(c + Mul(x, y), c + Mul(x, y)) <= Mul(a + Mul(x, x), b + Mul(y, y))
  {
    var xx, yy, xy := Mul(x, x), Mul(y, y), Mul(x, y);
    var u, v, w := Mul(a, yy), Mul(b, xx), Mul(c, xy);
    MulSign(x);
    MulSign(y);
    MulSign(xy);
    CrossSquared(x, y);
    FourMul(c, xy, c, xy);
    FourMul(a, yy, b, xx);
    Binomial(c, xy, c, xy);
    Binomial(a, xx, b, yy);
    hide Mul;
    Scale(Mul(c, c), Mul(a, b), Mul(xy, xy));
    Scale(0.0, a, yy);
    Scale(0.0, b, xx);
    MulZero(0.0, xx);
    MulZero(0.0, yy);
    Commutes(xx, yy);
    Commutes(xy, c);
    Commutes(xx, b);
    TwiceGeometric(u, v, w);
  }

  lemma CrossSquared(x: real, y: real)
    ensures Mul(Mul(x, y), Mul(x, y)) == Mul(Mul(x, x), Mul(y, y))
  {
    FourMul(x, y, x, y);
  }

  lemma FourMul(p: real, q: real, r: real, s: real)
    ensures Mul(Mul(p, q), Mul(r, s)) == Mul(Mul(p, r), Mul(q, s))
  {
  }

  lemma Binomial(p: real, q: real, r: real, s: real)
    ensures Mul(p + q, r + s) == Mul(p, r) + Mul(p, s) + Mul(q, r) + Mul(q, s)
  {
  }

  lemma Commutes(p: real, q: real)
    ensures Mul(p, q) == Mul(q, p)
  {
  }

  lemma Scale(p: real, q: real, s: real)
    requires p <= q && s >= 0.0
    ensures Mul(p, s) <= Mul(q, s)
  {
  }

  lemma {:induction false} CauchySchwarz(x: Vector, y: Vector)
    requires x.Keys == y.Keys && AllFinite(x) && AllFinite(y)
    ensures Dot(x, y).Finite? && Squares(x).Finite? && Squares(y).Finite?
    ensures Mul(Dot(x, y).r, Dot(x, y).r) <= Mul(Squares(x).r, Squares(y).r)
    decreases |x|
  {
    hide Dot, Squares, Mul;
    DotFinite(x, y);
    SquaresSign(x);
    SquaresSign(y);
    if x == map[] {
      EmptyDot(x, y);
      EmptyDot(y, x);
    } else {
      var k :| k in x;
      CauchySchwarz(x - {k}, y - {k});
      CauchyAdd(x, y, k);
    }
  }

  lemma EmptyDot(x: Vector, y: Vector)
    requires x == map[]
    ensures Dot(x, y) == Squares(x) == Finite(0.0)
  {
    assert Products(x, y) == map[];
  }

  lemma CauchyAdd(x: Vector, y: Vector, k: string)
    requires x.Keys == y.Keys && AllFinite(x) && AllFinite(y) && k in x
    requires var d, s, t := Dot(x - {k}, y - {k}), Squares(x - {k}), Squares(y - {k});
      d.Finite? && s.Finite? && t.Finite? && Mul(d.r, d.r) <= Mul(s.r, t.r)
    ensures var d, s, t := Dot(x, y), Squares(x), Squares(y);
      d.Finite? && s.Finite? && t.Finite? && Mul(d.r, d.r) <= Mul(s.r, t.r)
  {
    hide Dot, Mul;
    SquaresSign(x - {k});
    SquaresSign(y - {k});
    var d, s, t := Dot(x - {k}, y - {k}), Squares(x - {k}), Squares(y - {k});
    Grown(x, y, k, d.r, s.r, t.r);
    CauchyStep(s.r, t.r, d.r, x[k].r, y[k].r);
  }

  lemma Grown(x: Vector, y: Vector, k: string, d: real, s: real, t: real)
    requires x.Keys == y.Keys && AllFinite(x) && AllFinite(y) && k in x
    requires Dot(x - {k}, y - {k}) == Finite(d) && Squares(x - {k}) == Finite(s) && Squares(y - {k}) == Finite(t)
    ensures Dot(x, y) == Finite(d + Mul(x[k].r, y[k].r))
    ensures Squares(x) == Finite(s + Mul(x[k].r, x[k].r)) && Squares(y) == Finite(t + Mul(y[k].r, y[k].r))
  {
    hide Dot, Mul;
    DotRemove(x, y, k);
    DotRemove(x, x, k);
    DotRemove(y, y, k);
  }
}
