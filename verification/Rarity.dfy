/** What the weights say: rare words count more, lengths cancel, and the counts of the question's words decide. */
module Rarity {
  import opened Sums
  import opened Tally
  import opened TfIdf
  import opened InvertedIndex
  import opened PageQuery

  ghost predicate Logarithm(m: Maths) {
    m.log2(1.0) == 0.0 && forall x, y :: 0.0 < x < y ==> m.log2(x) < m.log2(y)
  }

  // ----- the inverse document frequency -----

  lemma QuotientOrder(n: real, a: real, b: real)
    requires n > 0.0 && 0.0 < a < b
    ensures 0.0 < Div(n, b) < Div(n, a)
  {
    QuotientPositive(n, b);
    assert Mul(Div(n, b), b) == n && Mul(Div(n, a), a) == n;
    assert Mul(Div(n, b), b) - Mul(Div(n, b), a) == Mul(Div(n, b), b - a);
    MulPositive(Div(n, b), b - a);
    hide Mul, Div;
    LargerFactor(Div(n, b), Div(n, a), a);
  }

  lemma QuotientPositive(n: real, b: real)
    requires n > 0.0 && b > 0.0
    ensures Div(n, b) > 0.0
  {
  }

  lemma LargerFactor(p: real, q: real, a: real)
    requires a > 0.0 && Mul(p, a) < Mul(q, a)
    ensures p < q
  {
    hide Mul;
    if q <= p { Scale(q, p, a); }
  }

  lemma QuotientOne(n: real)
    requires n > 0.0
    ensures Div(n, n) == 1.0
  {
  }

  lemma IdfIsLog(frequencies: Terms, total: nat, m: Maths, t: string)
    ensures Idf(frequencies, total, m, t) == m.log2(Div(total as real, (Frequency(frequencies, t) + 1) as real))
  {
  }

  lemma LogOrder(m: Maths, n: real, a: real, b: real)
    requires Logarithm(m) && n > 0.0 && a > 0.0 && b > 0.0
    ensures a < b <==> m.log2(Div(n, a)) > m.log2(Div(n, b))
  {
    hide Div;
    if a < b {
      QuotientOrder(n, a, b);
    } else if b < a {
      QuotientOrder(n, b, a);
    }
  }

  /** A word is in fewer pages than another if and only if its IDF is larger. */
  lemma RarerWeighsMore(frequencies: Terms, total: nat, m: Maths, t: string, u: string)
    requires Logarithm(m) && total > 0
    ensures Frequency(frequencies, t) < Frequency(frequencies, u) <==>
      Idf(frequencies, total, m, t) > Idf(frequencies, total, m, u)
  {
    hide Idf, Frequency, Logarithm, Div;
    IdfIsLog(frequencies, total, m, t);
    IdfIsLog(frequencies, total, m, u);
    LogOrder(m, total as real, (Frequency(frequencies, t) + 1) as real, (Frequency(frequencies, u) + 1) as real);
  }

  /** The IDF has the sign of N - (DF + 1): it is zero when all pages but one have the word, and negative when all
      have it. */
  lemma IdfSign(frequencies: Terms, total: nat, m: Maths, t: string)
    requires Logarithm(m) && total > 0
    ensures Idf(frequencies, total, m, t) == 0.0 <==> Frequency(frequencies, t) + 1 == total
    ensures Idf(frequencies, total, m, t) > 0.0 <==> Frequency(frequencies, t) + 1 < total
  {
    hide Idf, Frequency, Div;
    var n, a := total as real, (Frequency(frequencies, t) + 1) as real;
    IdfIsLog(frequencies, total, m, t);
    QuotientOne(n);
    LogOrder(m, n, a, n);
    LogOrder(m, n, n, a);
  }

  // ----- the weights -----

  /** TF times the binary logarithm of N / (DF + 1), written out. */
  ghost function Plain(terms: Terms, frequencies: Terms, total: nat, m: Maths): (v: Vector)
    ensures v.Keys == terms.Keys && AllFinite(v)
  {
    map t | t in terms ::
      var pages := if t in frequencies then frequencies[t] else 0;
      Finite(Mul(terms[t] as real, m.log2(total as real / (pages as real + 1.0))))
  }

  ghost function Scaled(s: real, v: Vector): (r: Vector)
    ensures r.Keys == v.Keys && (AllFinite(v) ==> AllFinite(r))
  {
    map t | t in v :: Times(Finite(s), v[t])
  }

  lemma PlainIsRaw(terms: Terms, frequencies: Terms, total: nat, m: Maths)
    ensures Raw(terms, frequencies, total, m) == Plain(terms, frequencies, total, m)
  {
    hide Mul, Idf;
    forall t | t in terms ensures Raw(terms, frequencies, total, m)[t] == Plain(terms, frequencies, total, m)[t] {
      IdfIs(frequencies, total, m, t);
    }
  }

  lemma IdfIs(frequencies: Terms, total: nat, m: Maths, t: string)
    ensures var pages := if t in frequencies then frequencies[t] else 0;
      Idf(frequencies, total, m, t) == m.log2(total as real / (pages as real + 1.0))
  {
  }

  lemma Reciprocal(p: real, q: real)
    requires q > 0.0
    ensures Div(p, q) == Mul(Div(1.0, q), p) && Div(1.0, q) > 0.0
  {
  }

  /** The weights of a page are all in one proportion to TF * log2(N / (DF + 1)): that of 1 to the length. */
  lemma InProportion(terms: Terms, frequencies: Terms, total: nat, m: Maths) returns (s: real)
    requires Roots(m) && Counted(terms) && !NoIdf(terms, frequencies, total, m)
    ensures s > 0.0 && Weights(terms, frequencies, total, m) == Scaled(s, Plain(terms, frequencies, total, m))
    ensures var length := Length(Plain(terms, frequencies, total, m), m);
      length.Finite? && length.r > 0.0 && s == Div(1.0, length.r)
  {
    hide Mul, Div, Idf, Length, Roots, Raw, Plain, NoIdf;
    PositiveLength(terms, frequencies, total, m);
    PlainIsRaw(terms, frequencies, total, m);
    var raw := Raw(terms, frequencies, total, m);
    var length := Length(raw, m).r;
    s := Div(1.0, length);
    Reciprocal(1.0, length);
    forall t | t in terms ensures Weights(terms, frequencies, total, m)[t] == Scaled(s, raw)[t] {
      Reciprocal(raw[t].r, length);
    }
  }

  // ----- scaling -----

  lemma {:induction false} DotScaled(a: real, x: Vector, b: real, y: Vector)
    requires x.Keys <= y.Keys && AllFinite(x) && AllFinite(y)
    ensures Dot(x, y).Finite? && Dot(Scaled(a, x), Scaled(b, y)) == Finite(Mul(Mul(a, b), Dot(x, y).r))
    decreases |x|
  {
    hide Dot, Mul, Scaled;
    DotFinite(x, y);
    if x == map[] {
      MulZero(Mul(a, b), 0.0);
      EmptyDot(x, y);
      EmptyDot(Scaled(a, x), Scaled(b, y));
    } else {
      var k :| k in x;
      DotScaled(a, x - {k}, b, y - {k});
      DotScaledStep(a, x, b, y, k);
    }
  }

  lemma ScaledWithout(s: real, v: Vector, k: string)
    ensures Scaled(s, v) - {k} == Scaled(s, v - {k})
    ensures k in v ==> Scaled(s, v)[k] == Times(Finite(s), v[k])
  {
  }

  lemma DotScaledStep(a: real, x: Vector, b: real, y: Vector, k: string)
    requires x.Keys <= y.Keys && AllFinite(x) && AllFinite(y) && k in x
    requires var d := Dot(x - {k}, y - {k});
      d.Finite? && Dot(Scaled(a, x - {k}), Scaled(b, y - {k})) == Finite(Mul(Mul(a, b), d.r))
    ensures Dot(x, y).Finite? && Dot(Scaled(a, x), Scaled(b, y)) == Finite(Mul(Mul(a, b), Dot(x, y).r))
  {
    hide Dot, Mul, Scaled;
    DotRemove(x, y, k);
    ScaledWithout(a, x, k);
    ScaledWithout(b, y, k);
    DotRemove(Scaled(a, x), Scaled(b, y), k);
    FourMul(a, x[k].r, b, y[k].r);
    Distributes(Mul(a, b), Mul(x[k].r, y[k].r), Dot(x - {k}, y - {k}).r);
  }

  lemma Distributes(s: real, p: real, q: real)
    ensures Mul(s, p + q) == Mul(s, p) + Mul(s, q)
  {
  }

  lemma SameRoot(p: real, q: real)
    requires p >= 0.0 && q >= 0.0 && Mul(p, p) == Mul(q, q)
    ensures p == q
  {
    hide Mul;
    RootOrder(p, q);
    RootOrder(q, p);
  }

  lemma LengthScaled(s: real, v: Vector, m: Maths)
    requires Roots(m) && s > 0.0 && AllFinite(v)
    ensures Length(v, m).Finite? && Length(Scaled(s, v), m) == Finite(Mul(s, Length(v, m).r))
  {
    hide Squares, Mul;
    LengthIsZero(v, m);
    LengthIsZero(Scaled(s, v), m);
    SquaresSign(v);
    SquaresSign(Scaled(s, v));
    SquaresScaled(s, v);
    var l, l' := Length(v, m).r, Length(Scaled(s, v), m).r;
    CrossSquared(s, l);
    Scale(0.0, s, l);
    MulZero(0.0, l);
    SameRoot(l', Mul(s, l));
  }

  lemma SquaresScaled(s: real, v: Vector)
    requires AllFinite(v)
    ensures Squares(v).Finite? && Squares(Scaled(s, v)) == Finite(Mul(Mul(s, s), Squares(v).r))
  {
    hide Mul, Dot;
    DotScaled(s, v, s, v);
  }

  lemma Cancels(s: real, d: real, l: real)
    requires s > 0.0 && Divides(Finite(d), Finite(l)) && Divides(Finite(Mul(s, d)), Finite(Mul(s, l)))
    ensures Over(Finite(Mul(s, d)), Finite(Mul(s, l))) == Over(Finite(d), Finite(l))
  {
    hide Mul, Div;
    if l == 0.0 {
      MulZero(s, l);
    } else {
      MulNotZero(s, l);
      CancelsIn(s, d, l);
    }
  }

  lemma CancelsIn(s: real, d: real, l: real)
    requires s > 0.0 && l != 0.0 && Mul(s, l) != 0.0
    ensures Div(Mul(s, d), Mul(s, l)) == Div(d, l)
  {
  }

  /** The cosine does not depend on how long the vectors are. */
  lemma CosineScaled(a: real, x: Vector, b: real, y: Vector, m: Maths)
    requires Roots(m) && a > 0.0 && b > 0.0 && x.Keys <= y.Keys && AllFinite(x) && AllFinite(y)
    ensures CosineOf(Scaled(a, x), Scaled(b, y), m) == CosineOf(x, y, m)
  {
    hide Dot, Length, Mul, Roots, Over, Scaled;
    MulPositive(a, b);
    DotScaled(a, x, b, y);
    LengthScaled(a, x, m);
    LengthScaled(b, y, m);
    var p, q := Length(x, m).r, Length(y, m).r;
    FourMul(a, p, b, q);
    DotDivides(x, y, m);
    DotDivides(Scaled(a, x), Scaled(b, y), m);
    Cancels(Mul(a, b), Dot(x, y).r, Mul(p, q));
  }

  /** The weights have the length 1, unless each of the words has an IDF of zero and all weights are NaN. */
  lemma UnitLength(terms: Terms, frequencies: Terms, total: nat, m: Maths)
    requires Roots(m) && Counted(terms)
    ensures if NoIdf(terms, frequencies, total, m)
      then forall t :: t in terms ==> Weights(terms, frequencies, total, m)[t] == NaN
      else Squares(Weights(terms, frequencies, total, m)) == Finite(1.0)
  {
    hide Mul, Div, Idf, Length, Roots, Raw, Weights, Squares;
    if NoIdf(terms, frequencies, total, m) {
      forall t | t in terms ensures Weights(terms, frequencies, total, m)[t] == NaN {
        WeightIsNaN(terms, frequencies, total, m, t);
      }
    } else {
      OneSquared(terms, frequencies, total, m);
    }
  }

  lemma OneSquared(terms: Terms, frequencies: Terms, total: nat, m: Maths)
    requires Roots(m) && Counted(terms) && !NoIdf(terms, frequencies, total, m)
    ensures Squares(Weights(terms, frequencies, total, m)) == Finite(1.0)
  {
    hide Mul, Div, Weights, Squares, NoIdf, Plain, Scaled;
    var s := InProportion(terms, frequencies, total, m);
    var plain := Plain(terms, frequencies, total, m);
    SquaresSign(plain);
    SquaresScaled(s, plain);
    Inverse(Length(plain, m).r);
  }

  lemma Inverse(l: real)
    requires l > 0.0
    ensures Mul(Mul(Div(1.0, l), Div(1.0, l)), Mul(l, l)) == 1.0
  {
    assert Mul(Div(1.0, l), l) == 1.0;
    FourMul(Div(1.0, l), Div(1.0, l), l, l);
  }

  // ----- the question's words decide -----

  /** TF * log2(N / (DF + 1)) for the question's words in a page. */
  ghost function Part(terms: Terms, query: Terms, frequencies: Terms, total: nat, m: Maths): (v: Vector)
    ensures v.Keys == terms.Keys * query.Keys && AllFinite(v)
  {
    Restricted(Plain(terms, frequencies, total, m), query.Keys)
  }

  lemma RestrictedScaled(s: real, v: Vector, words: set<string>)
    ensures Restricted(Scaled(s, v), words) == Scaled(s, Restricted(v, words))
  {
  }

  lemma MoreWords(query: Terms, terms: Terms, frequencies: Terms, total: nat, m: Maths)
    requires query.Keys <= terms.Keys && !NoIdf(query, frequencies, total, m)
    ensures !NoIdf(terms, frequencies, total, m)
  {
    hide Idf;
    var t :| t in query && Idf(frequencies, total, m, t) != 0.0;
    assert t in terms;
  }

  /** The cosine of the normalised weights is that of TF * log2(N / (DF + 1)) over the question's words: the other words
      of the page only change its length, which cancels. */
  lemma CosineIsPlain(query: Terms, terms: Terms, frequencies: Terms, total: nat, m: Maths)
    requires Roots(m) && Counted(query) && Counted(terms) && query.Keys <= terms.Keys
    requires !NoIdf(query, frequencies, total, m)
    ensures var x, y := Weights(query, frequencies, total, m),
      Restricted(Weights(terms, frequencies, total, m), query.Keys);
      x.Keys <= y.Keys && CosineOf(x, y, m) ==
        CosineOf(Plain(query, frequencies, total, m), Part(terms, query, frequencies, total, m), m)
  {
    hide NoIdf, Weights, Plain, Scaled, Roots, CosineOf, Restricted, Counted;
    MoreWords(query, terms, frequencies, total, m);
    var a := InProportion(query, frequencies, total, m);
    var b := InProportion(terms, frequencies, total, m);
    RestrictedScaled(b, Plain(terms, frequencies, total, m), query.Keys);
    CosineScaled(a, Plain(query, frequencies, total, m), b, Part(terms, query, frequencies, total, m), m);
  }

  /** The question and a page that has all its words: the product and both lengths are positive. */
  lemma PlainPositive(query: Terms, terms: Terms, frequencies: Terms, total: nat, m: Maths)
    requires Roots(m) && Counted(query) && Counted(terms) && query.Keys <= terms.Keys
    requires !NoIdf(query, frequencies, total, m)
    ensures var x, y := Plain(query, frequencies, total, m), Part(terms, query, frequencies, total, m);
      && Dot(x, y).Finite? && Dot(x, y).r > 0.0
      && Squares(x).Finite? && Squares(x).r > 0.0
      && Squares(y).Finite? && Squares(y).r > 0.0
  {
    hide NoIdf, Weights, Plain, Scaled, Roots, Restricted, Counted, Dot, Squares, Mul, Div;
    MoreWords(query, terms, frequencies, total, m);
    SharedSigns(query, terms, frequencies, total, m);
    var a := InProportion(query, frequencies, total, m);
    var b := InProportion(terms, frequencies, total, m);
    var x, y := Plain(query, frequencies, total, m), Part(terms, query, frequencies, total, m);
    RestrictedScaled(b, Plain(terms, frequencies, total, m), query.Keys);
    DotScaled(a, x, b, y);
    MulPositive(a, b);
    PositiveFactor(Mul(a, b), Dot(x, y).r);
    CauchySchwarz(x, y);
    SquaresSign(x);
    SquaresSign(y);
    MulPositive(Dot(x, y).r, Dot(x, y).r);
    PositiveFactors(Squares(x).r, Squares(y).r);
  }

  lemma PositiveFactor(s: real, d: real)
    requires s > 0.0 && Mul(s, d) > 0.0
    ensures d > 0.0
  {
  }

  lemma PositiveFactors(p: real, q: real)
    requires p >= 0.0 && q >= 0.0 && Mul(p, q) > 0.0
    ensures p > 0.0 && q > 0.0
  {
    if p == 0.0 || q == 0.0 { MulZero(p, q); }
  }

  /** Of two pages that have all words of the question, which comes first is decided without roots: with d and e for the
      products of the question with the two, the first does if and only if d*d over its squared length is larger than
      e*e over that of the other. */
  lemma FirstIff(query: Terms, a: Terms, b: Terms, frequencies: Terms, total: nat, m: Maths)
    requires Roots(m) && Counted(query) && Counted(a) && Counted(b)
    requires query.Keys <= a.Keys && query.Keys <= b.Keys && !NoIdf(query, frequencies, total, m)
    ensures var x := Plain(query, frequencies, total, m);
      var y, z := Part(a, query, frequencies, total, m), Part(b, query, frequencies, total, m);
      && Dot(x, y).Finite? && Dot(x, z).Finite? && Squares(y).Finite? && Squares(z).Finite?
      && (Greater(CosineOf(x, y, m), CosineOf(x, z, m)) <==>
            Mul(Mul(Dot(x, y).r, Dot(x, y).r), Squares(z).r) > Mul(Mul(Dot(x, z).r, Dot(x, z).r), Squares(y).r))
  {
    hide NoIdf, Plain, Part, Dot, Squares, Mul, Div, Counted, Length, CosineOf, Roots;
    PlainPositive(query, a, frequencies, total, m);
    PlainPositive(query, b, frequencies, total, m);
    var x := Plain(query, frequencies, total, m);
    var y, z := Part(a, query, frequencies, total, m), Part(b, query, frequencies, total, m);
    CosineIsRatio(x, y, m);
    CosineIsRatio(x, z, m);
    RatioOrder(Dot(x, y).r, Dot(x, z).r, Length(x, m).r, Length(y, m).r, Length(z, m).r);
  }

  lemma CosineIsRatio(x: Vector, y: Vector, m: Maths)
    requires Roots(m) && x.Keys <= y.Keys && Dot(x, y).Finite?
    requires Squares(x).Finite? && Squares(x).r > 0.0 && Squares(y).Finite? && Squares(y).r > 0.0
    ensures var p, q := Length(x, m), Length(y, m);
      && p.Finite? && p.r > 0.0 && q.Finite? && q.r > 0.0 && Mul(p.r, q.r) > 0.0
      && Mul(p.r, p.r) == Squares(x).r && Mul(q.r, q.r) == Squares(y).r
      && CosineOf(x, y, m) == Finite(Div(Dot(x, y).r, Mul(p.r, q.r)))
  {
    hide Dot, Squares, Mul, Div;
    DotDivides(x, y, m);
    var p, q := Length(x, m).r, Length(y, m).r;
    MulSign(p);
    MulSign(q);
    MulPositive(p, q);
  }

  lemma RatioOrder(d: real, e: real, p: real, q: real, r: real)
    requires d > 0.0 && e > 0.0 && p > 0.0 && q > 0.0 && r > 0.0 && Mul(p, q) > 0.0 && Mul(p, r) > 0.0
    ensures Div(d, Mul(p, q)) > Div(e, Mul(p, r)) <==> Mul(Mul(d, d), Mul(r, r)) > Mul(Mul(e, e), Mul(q, q))
  {
    CrossedOrder(d, e, p, q, r);
    FourMul(d, d, r, r);
    FourMul(e, e, q, q);
    hide Mul, Div;
    MulPositive(d, r);
    MulPositive(e, q);
    SquareOrder(Mul(d, r), Mul(e, q));
  }

  lemma CrossedOrder(d: real, e: real, p: real, q: real, r: real)
    requires p > 0.0 && q > 0.0 && r > 0.0 && Mul(p, q) > 0.0 && Mul(p, r) > 0.0
    ensures Div(d, Mul(p, q)) > Div(e, Mul(p, r)) <==> Mul(d, r) > Mul(e, q)
  {
    assert Mul(d, r) == Mul(Div(d, Mul(p, q)), Mul(p, Mul(q, r)));
    assert Mul(e, q) == Mul(Div(e, Mul(p, r)), Mul(p, Mul(q, r)));
  }

  lemma SquareOrder(p: real, q: real)
    requires p >= 0.0 && q >= 0.0
    ensures p > q <==> Mul(p, p) > Mul(q, q)
  {
    hide Mul;
    if p > q {
      SquareLess(q, p);
    } else if Mul(p, p) > Mul(q, q) {
      RootOrder(q, p);
    }
  }

  // ----- pages that cannot be told apart -----

  /** The question's words stand in the same proportions in both pages. */
  ghost predicate Alike(query: Terms, a: Terms, b: Terms, c: nat, d: nat) {
    forall t :: t in query ==> t in a && t in b && c * a[t] == d * b[t]
  }

  lemma SameProduct(c: nat, p: nat, d: nat, q: nat, idf: real)
    requires c * p == d * q
    ensures Mul(c as real, Mul(p as real, idf)) == Mul(d as real, Mul(q as real, idf))
  {
    assert (c * p) as real == c as real * p as real && (d * q) as real == d as real * q as real;
  }

  lemma PartAt(terms: Terms, query: Terms, frequencies: Terms, total: nat, m: Maths, t: string)
    requires t in query && t in terms
    ensures Part(terms, query, frequencies, total, m)[t] ==
      Finite(Mul(terms[t] as real, Idf(frequencies, total, m, t)))
  {
    IdfIs(frequencies, total, m, t);
  }

  lemma AlikeAt(query: Terms, a: Terms, b: Terms, c: nat, d: nat, frequencies: Terms, total: nat, m: Maths, t: string)
    requires Alike(query, a, b, c, d) && t in query
    ensures Scaled(c as real, Part(a, query, frequencies, total, m))[t] ==
      Scaled(d as real, Part(b, query, frequencies, total, m))[t]
  {
    hide Mul, Part, Idf;
    PartAt(a, query, frequencies, total, m, t);
    PartAt(b, query, frequencies, total, m, t);
    SameProduct(c, a[t], d, b[t], Idf(frequencies, total, m, t));
  }

  lemma AlikeScaled(query: Terms, a: Terms, b: Terms, c: nat, d: nat, frequencies: Terms, total: nat, m: Maths)
    requires Alike(query, a, b, c, d)
    ensures Scaled(c as real, Part(a, query, frequencies, total, m)) ==
      Scaled(d as real, Part(b, query, frequencies, total, m))
  {
    hide Part, Scaled;
    forall t | t in query
      ensures Scaled(c as real, Part(a, query, frequencies, total, m))[t] ==
        Scaled(d as real, Part(b, query, frequencies, total, m))[t]
    {
      AlikeAt(query, a, b, c, d, frequencies, total, m, t);
    }
  }

  /** Two pages with the question's words in the same proportions have the same cosine, whatever other words they have;
      so at most one of them is found. */
  lemma AlikeTie(query: Terms, a: Terms, b: Terms, c: nat, d: nat, frequencies: Terms, total: nat, m: Maths)
    requires Roots(m) && Counted(query) && Counted(a) && Counted(b) && query != map[]
    requires Alike(query, a, b, c, d) && c > 0 && d > 0
    ensures var x, y, z := Weights(query, frequencies, total, m),
      Restricted(Weights(a, frequencies, total, m), query.Keys),
      Restricted(Weights(b, frequencies, total, m), query.Keys);
      x.Keys <= y.Keys && x.Keys <= z.Keys && CosineOf(x, y, m) == CosineOf(x, z, m)
  {
    hide NoIdf, Weights, Plain, Part, Scaled, Roots, CosineOf, Restricted, Counted;
    CosineRange(query, a, frequencies, total, m);
    CosineRange(query, b, frequencies, total, m);
    if !NoIdf(query, frequencies, total, m) {
      CosineIsPlain(query, a, frequencies, total, m);
      CosineIsPlain(query, b, frequencies, total, m);
      AlikeScaled(query, a, b, c, d, frequencies, total, m);
      var x := Plain(query, frequencies, total, m);
      CosineScaled(1.0, x, c as real, Part(a, query, frequencies, total, m), m);
      CosineScaled(1.0, x, d as real, Part(b, query, frequencies, total, m), m);
    }
  }

  /** Of two such pages an answer holds at most one. */
  lemma OneOfAlike(web: WebPageQuery, ids: seq<nat>, query: Terms, a: nat, b: nat, c: nat, d: nat)
    requires Roots(web.pre.tools.maths) && Counted(query) && query != map[] && web.AnswersRanked(ids, query)
    requires a != b && Full(web.pre.indexed, query, a) && Full(web.pre.indexed, query, b)
    requires Alike(query, web.pre.indexed[a].terms, web.pre.indexed[b].terms, c, d) && c > 0 && d > 0
    ensures a !in ids || b !in ids
  {
    hide Roots, Counted, CosineOf, Weights, Restricted, Alike, Answers, WebPageQuery.AnswersRanked;
    var pre := web.pre;
    AlikeTie(query, pre.indexed[a].terms, pre.indexed[b].terms, c, d, pre.frequencies, |pre.pages|, pre.tools.maths);
    assert web.Cosine(query, a) == web.Cosine(query, b);
    hide WebPageQuery.Cosine;
    if a in ids && b in ids {
      var i :| 0 <= i < |ids| && ids[i] == a;
      var j :| 0 <= j < |ids| && ids[j] == b;
      if i < j { Falls(web, ids, query, i, j); } else { Falls(web, ids, query, j, i); }
    }
  }

  // ----- how many pages have a word -----

  lemma {:induction false} UnlikeAll(p: Page, pages: seq<Page>, eq: (nat, nat) -> bool)
    requires forall q :: q in pages ==> !eq(p.raw.simHash, q.raw.simHash)
    ensures Unlike(p, pages, eq) == pages
  {
    if pages != [] {
      UnlikeAll(p, pages[1..], eq);
      assert pages == [pages[0]] + pages[1..];
    }
  }

  lemma FirstDiffers(pages: seq<Page>, eq: (nat, nat) -> bool)
    requires AllDiffer(pages, eq) && pages != []
    ensures AllDiffer(pages[1..], eq) && forall q :: q in pages[1..] ==> !eq(pages[0].raw.simHash, q.raw.simHash)
  {
    forall q | q in pages[1..] ensures !eq(pages[0].raw.simHash, q.raw.simHash) {
      var i :| 0 <= i < |pages[1..]| && pages[1..][i] == q;
      assert q == pages[i + 1];
    }
  }

  /** Pages that all differ all stay. */
  lemma {:induction false} AllStay(pages: seq<Page>, eq: (nat, nat) -> bool)
    requires AllDiffer(pages, eq)
    ensures Deduped(pages, eq) == pages
  {
    hide AllDiffer, Unlike;
    if pages != [] {
      FirstDiffers(pages, eq);
      UnlikeAll(pages[0], pages[1..], eq);
      AllStay(pages[1..], eq);
      assert pages == [pages[0]] + pages[1..];
    }
  }

  lemma OnePageMore(pages: seq<Page>, n: nat)
    requires Ascending(pages) && n < |pages|
    ensures PageSet(pages[..n + 1]) == PageSet(pages[..n]) + {pages[n]} && pages[n] !in PageSet(pages[..n])
  {
    assert pages[..n + 1] == pages[..n] + [pages[n]];
    assert pages[n] !in pages[..n];
  }

  lemma {:induction false} PageCount(pages: seq<Page>, n: nat)
    requires Ascending(pages) && n <= |pages|
    ensures |PageSet(pages[..n])| == n
  {
    hide PageSet, Ascending;
    NoneOf(pages);
    if n > 0 {
      PageCount(pages, n - 1);
      OnePageMore(pages, n - 1);
    }
  }

  lemma NoneOf(pages: seq<Page>)
    ensures PageSet(pages[..0]) == {}
  {
  }

  ghost predicate InFirst(pages: seq<Page>, n: nat, t: string) {
    n <= |pages| && forall i :: 0 <= i < |pages| ==> (t in pages[i].terms <==> i < n)
  }

  /** A word that the first n pages have, and no others. */
  lemma FrequencyOfFirst(frequencies: Terms, pages: seq<Page>, n: nat, t: string)
    requires DocumentFrequencies(frequencies, pages) && Ascending(pages) && InFirst(pages, n, t)
    ensures Frequency(frequencies, t) == n
  {
    PageCount(pages, n);
    var found := (p: Page, t: string) => t in p.terms;
    HitsOfFirst(pages, n, t);
    assert Hits(found, PageSet(pages), t) == PageSet(pages[..n]);
  }

  lemma HitsOfFirst(pages: seq<Page>, n: nat, t: string)
    requires InFirst(pages, n, t)
    ensures Hits((p: Page, t: string) => t in p.terms, PageSet(pages), t) == PageSet(pages[..n])
  {
    forall p | p in pages && t in p.terms ensures p in pages[..n] {
      var i :| 0 <= i < |pages| && pages[i] == p;
      assert pages[..n][i] == p;
    }
    forall p | p in pages[..n] ensures p in pages && t in p.terms {
      var i :| 0 <= i < n && pages[i] == p;
    }
  }

  // ----- twelve pages -----

  /** Two pages with both words, three with the common one alone, and seven others. */
  function Subject(i: nat): string {
    if i == 0 then "much of the common"
    else if i == 1 then "much of the rare"
    else if i < 5 then "common"
    else "others"
  }

  /** Twelve different pages. */
  function Twelve(): (items: seq<RawPage>)
    ensures |items| == 12 && forall i :: 0 <= i < 12 ==> items[i] == RawPage("", Subject(i), i)
  {
    seq(12, i requires 0 <= i < 12 => RawPage("", Subject(i), i))
  }

  ghost predicate Splits(tools: Tools) {
    && tools.segment("much of the common") == ["common", "common", "rare"]
    && tools.segment("much of the rare") == ["common", "rare", "rare", "rare"]
    && tools.segment("common") == ["common"] && tools.segment("others") == ["others"]
    && tools.segment("both") == ["common", "rare"]
    && tools.stopWords == {}
  }

  const Both: Terms := map["common" := 1, "rare" := 1]

  lemma OneWord(w: string)
    ensures TermsOf([w], {}) == map[w := 1]
  {
    assert multiset([w]) == multiset{w};
  }

  lemma TwoWords(v: string, w: string)
    requires v != w
    ensures TermsOf([v, w], {}) == map[v := 1, w := 1]
  {
    assert [v, w] == [v] + [w];
    assert multiset([v, w])[v] == 1 && multiset([v, w])[w] == 1;
  }

  lemma TwiceAndOnce(v: string, w: string)
    requires v != w
    ensures TermsOf([v, v, w], {}) == map[v := 2, w := 1]
  {
    assert multiset([v, v, w])[v] == 2 && multiset([v, v, w])[w] == 1;
  }

  lemma OnceAndThrice(v: string, w: string)
    requires v != w
    ensures TermsOf([v, w, w, w], {}) == map[v := 1, w := 3]
  {
    assert multiset([v, w, w, w])[v] == 1 && multiset([v, w, w, w])[w] == 3;
  }

  ghost function Written(i: nat): Terms {
    if i == 0 then map["common" := 2, "rare" := 1]
    else if i == 1 then map["common" := 1, "rare" := 3]
    else if i < 5 then map["common" := 1]
    else map["others" := 1]
  }

  ghost predicate AreTwelve(pages: seq<Page>) {
    |pages| == 12 && forall i :: 0 <= i < 12 ==> pages[i].id == i + 1 && pages[i].terms == Written(i)
  }

  lemma TwelveStay(tools: Tools)
    requires Splits(tools) && forall i, j :: 0 <= i < j ==> !tools.isEqual(i, j)
    ensures AreTwelve(WithTerms(Deduped(Numbered(Twelve()), tools.isEqual), tools))
  {
    hide Deduped, TermsOf;
    AllStay(Numbered(Twelve()), tools.isEqual);
    TwiceAndOnce("common", "rare");
    OnceAndThrice("common", "rare");
    OneWord("common");
    OneWord("others");
  }

  /** Five pages have the common word and two the rare one, so that their IDFs are log2(12/6) and log2(12/3). */
  lemma IdfsOfTwelve(frequencies: Terms, pages: seq<Page>, m: Maths)
    requires DocumentFrequencies(frequencies, pages) && AreTwelve(pages)
    requires m.log2(2.0) == 1.0 && m.log2(4.0) == 2.0
    ensures Idf(frequencies, 12, m, "common") == 1.0 && Idf(frequencies, 12, m, "rare") == 2.0
  {
    hide DocumentFrequencies;
    FrequencyOfFirst(frequencies, pages, 5, "common");
    FrequencyOfFirst(frequencies, pages, 2, "rare");
  }

  lemma DotOfTwo(x: Vector, y: Vector, t: string, u: string)
    requires t != u && x.Keys == {t, u} && y.Keys == {t, u} && AllFinite(x) && AllFinite(y)
    ensures Dot(x, y) == Finite(Mul(x[t].r, y[t].r) + Mul(x[u].r, y[u].r))
  {
    hide Dot, Mul;
    DotRemove(x, y, t);
    SingleDot(x - {t}, y - {t}, u);
  }

  /** With IDFs of 1 and 2 the page that has the rare word three times is closer to the question. */
  lemma RareIsCloser(frequencies: Terms, m: Maths)
    requires Roots(m) && Idf(frequencies, 12, m, "common") == 1.0 && Idf(frequencies, 12, m, "rare") == 2.0
    ensures var x := Plain(Both, frequencies, 12, m);
      Greater(CosineOf(x, Part(Written(1), Both, frequencies, 12, m), m),
        CosineOf(x, Part(Written(0), Both, frequencies, 12, m), m))
  {
    hide CosineOf, Part, Plain, Mul, Idf, Dot, Squares, Greater;
    var x := Plain(Both, frequencies, 12, m);
    var e, b := Part(Written(1), Both, frequencies, 12, m), Part(Written(0), Both, frequencies, 12, m);
    assert "common" in Both && !NoIdf(Both, frequencies, 12, m);
    FirstIff(Both, Written(1), Written(0), frequencies, 12, m);
    PartsOfTwo(frequencies, m);
    TwoDots(x, e, b);
  }

  lemma PlainAt(terms: Terms, frequencies: Terms, total: nat, m: Maths, t: string)
    requires t in terms
    ensures Plain(terms, frequencies, total, m)[t] == Finite(Mul(terms[t] as real, Idf(frequencies, total, m, t)))
  {
    IdfIs(frequencies, total, m, t);
  }

  lemma Doubled(n: nat)
    ensures Mul(n as real, 1.0) == n as real && Mul(n as real, 2.0) == (2 * n) as real
  {
  }

  lemma PartsOfTwo(frequencies: Terms, m: Maths)
    requires Idf(frequencies, 12, m, "common") == 1.0 && Idf(frequencies, 12, m, "rare") == 2.0
    ensures Plain(Both, frequencies, 12, m) == map["common" := Finite(1.0), "rare" := Finite(2.0)]
    ensures Part(Written(1), Both, frequencies, 12, m) == map["common" := Finite(1.0), "rare" := Finite(6.0)]
    ensures Part(Written(0), Both, frequencies, 12, m) == map["common" := Finite(2.0), "rare" := Finite(2.0)]
  {
    hide Idf, Plain, Part, Mul;
    Doubled(1);
    Doubled(2);
    Doubled(3);
    PlainAt(Both, frequencies, 12, m, "common");
    PlainAt(Both, frequencies, 12, m, "rare");
    PartAt(Written(1), Both, frequencies, 12, m, "common");
    PartAt(Written(1), Both, frequencies, 12, m, "rare");
    PartAt(Written(0), Both, frequencies, 12, m, "common");
    PartAt(Written(0), Both, frequencies, 12, m, "rare");
  }

  /** (1, 2) and (1, 6) have the cosine 13 / sqrt(185), (1, 2) and (2, 2) the cosine 6 / sqrt(40). */
  lemma TwoDots(x: Vector, e: Vector, b: Vector)
    requires x == map["common" := Finite(1.0), "rare" := Finite(2.0)]
    requires e == map["common" := Finite(1.0), "rare" := Finite(6.0)]
    requires b == map["common" := Finite(2.0), "rare" := Finite(2.0)]
    ensures Dot(x, e) == Finite(13.0) && Dot(x, b) == Finite(6.0)
    ensures Squares(e) == Finite(37.0) && Squares(b) == Finite(8.0)
    ensures Mul(Mul(13.0, 13.0), 8.0) > Mul(Mul(6.0, 6.0), 37.0)
  {
    DotOfTwo(x, e, "common", "rare");
    DotOfTwo(x, b, "common", "rare");
    DotOfTwo(e, e, "common", "rare");
    DotOfTwo(b, b, "common", "rare");
  }

  lemma TwoAnswer(pages: seq<Page>, id: nat)
    requires AreTwelve(pages)
    ensures Answers(pages, id, Both) <==> id == 1 || id == 2
  {
    assert pages[0] in pages && pages[1] in pages && "rare" in Both;
  }

  /** Two pages answer, with different cosines: both are found, the closer one first. */
  lemma TwoInOrder(web: WebPageQuery, ids: seq<nat>, query: Terms, a: nat, b: nat)
    requires Roots(web.pre.tools.maths) && web.AnswersRanked(ids, query)
    requires forall id :: Answers(web.pre.pages, id, query) <==> id == a || id == b
    requires Greater(web.Cosine(query, a), web.Cosine(query, b))
    ensures ids == [a, b]
  {
    hide Answers, CosineTo, Roots, WebPageQuery.AnswersRanked;
    var pages, indexed, frequencies, m := web.pre.pages, web.pre.indexed, web.pre.frequencies, web.pre.tools.maths;
    var c := (k: nat) => CosineTo(indexed, frequencies, |pages|, m, query, k);
    forall i, j | 0 <= i < j < |ids| ensures Greater(c(ids[i]), c(ids[j])) { Falls(web, ids, query, i, j); }
    forall id | id in ids ensures id == a || id == b { HasAnswered(web, ids, query, id); }
    var k := Stands(web, ids, query, a);
    var l := Stands(web, ids, query, b);
    assert c(k) == c(a) && c(l) == c(b);
    TwoByScore(ids, c, a, b);
  }

  lemma Falls(web: WebPageQuery, ids: seq<nat>, query: Terms, i: nat, j: nat)
    requires Roots(web.pre.tools.maths) && web.AnswersRanked(ids, query) && i < j < |ids|
    ensures Greater(web.Cosine(query, ids[i]), web.Cosine(query, ids[j]))
  {
    hide Roots, Answers, WebPageQuery.Cosine;
  }

  lemma HasAnswered(web: WebPageQuery, ids: seq<nat>, query: Terms, id: nat)
    requires Roots(web.pre.tools.maths) && web.AnswersRanked(ids, query) && id in ids
    ensures Answers(web.pre.pages, id, query)
  {
    hide Roots, Answers, WebPageQuery.Cosine;
  }

  /** A page that answers is found, or another with its cosine. */
  lemma Stands(web: WebPageQuery, ids: seq<nat>, query: Terms, id: nat) returns (k: nat)
    requires Roots(web.pre.tools.maths) && web.AnswersRanked(ids, query) && Answers(web.pre.pages, id, query)
    ensures k in ids && web.Cosine(query, k) == web.Cosine(query, id)
  {
    hide Roots, Answers, WebPageQuery.Cosine;
    k :| k in ids && web.Cosine(query, k) == web.Cosine(query, id);
  }

  lemma TwoByScore(ids: seq<nat>, c: nat -> Double, a: nat, b: nat)
    requires forall id :: id in ids ==> id == a || id == b
    requires forall i, j :: 0 <= i < j < |ids| ==> Greater(c(ids[i]), c(ids[j]))
    requires (exists k :: k in ids && c(k) == c(a)) && exists k :: k in ids && c(k) == c(b)
    requires Greater(c(a), c(b))
    ensures ids == [a, b]
  {
    assert a != b && a in ids && b in ids;
    forall i | 0 <= i < |ids| ensures (i > 0 ==> ids[i] == b) && (i + 1 < |ids| ==> ids[i] == a) {
      assert ids[i] in ids;
      if i > 0 { Later(ids, c, a, b, 0, i); }
      if i + 1 < |ids| { Later(ids, c, a, b, i, i + 1); }
    }
    OnlyTwo(ids, a, b);
  }

  lemma Later(ids: seq<nat>, c: nat -> Double, a: nat, b: nat, i: nat, j: nat)
    requires i < j < |ids| && (forall id :: id in ids ==> id == a || id == b)
    requires Greater(c(a), c(b)) && Greater(c(ids[i]), c(ids[j]))
    ensures ids[i] == a && ids[j] == b
  {
    assert ids[i] in ids && ids[j] in ids;
  }

  /** All but the first are b, all but the last are a. */
  lemma OnlyTwo(ids: seq<nat>, a: nat, b: nat)
    requires a != b && a in ids && b in ids
    requires forall i :: 0 <= i < |ids| ==> (i > 0 ==> ids[i] == b) && (i + 1 < |ids| ==> ids[i] == a)
    ensures ids == [a, b]
  {
    var i :| 0 <= i < |ids| && ids[i] == a;
    var j :| 0 <= j < |ids| && ids[j] == b;
    assert i == 0 && j == |ids| - 1;
    var second := ids[1];
  }

  lemma ClosestOfTwelve(web: WebPageQuery)
    requires Roots(web.pre.tools.maths) && web.pre.tools.maths.log2(2.0) == 1.0 && web.pre.tools.maths.log2(4.0) == 2.0
    requires AreTwelve(web.pre.pages) && DocumentFrequencies(web.pre.frequencies, web.pre.pages)
    requires IndexedBy(web.pre.indexed, web.pre.pages)
    ensures Greater(web.Cosine(Both, 2), web.Cosine(Both, 1))
  {
    hide DocumentFrequencies, Roots, Idf, CosineOf, CosineTo, Part, Plain, Greater, IndexedBy;
    var frequencies, m := web.pre.frequencies, web.pre.tools.maths;
    IdfsOfTwelve(frequencies, web.pre.pages, m);
    RareIsCloser(frequencies, m);
    CosineInTwelve(web.pre.pages, web.pre.indexed, frequencies, m, 2);
    CosineInTwelve(web.pre.pages, web.pre.indexed, frequencies, m, 1);
  }

  lemma CosineInTwelve(pages: seq<Page>, indexed: map<nat, Page>, frequencies: Terms, m: Maths, id: nat)
    requires Roots(m) && Idf(frequencies, 12, m, "common") == 1.0
    requires AreTwelve(pages) && IndexedBy(indexed, pages) && (id == 1 || id == 2)
    ensures CosineTo(indexed, frequencies, 12, m, Both, id) ==
      CosineOf(Plain(Both, frequencies, 12, m), Part(Written(id - 1), Both, frequencies, 12, m), m)
  {
    hide Roots, Idf, Weights, CosineOf, Part, Plain, Restricted;
    assert pages[id - 1] in pages;
    assert "common" in Both && !NoIdf(Both, frequencies, 12, m);
    CosineIsPlain(Both, Written(id - 1), frequencies, 12, m);
  }

  /** Twelve pages, of which the first has the common word twice and the rare one once, and the second the common word
      once and the rare one three times. A question with both puts the second page first, since the rare word counts
      twice as much. If the IDF did not look at the pages that have a word, the first page would come first. */
  method RareWordDecides(tools: Tools) returns (r: Answer)
    requires Roots(tools.maths) && tools.maths.log2(2.0) == 1.0 && tools.maths.log2(4.0) == 2.0
    requires Splits(tools) && forall i, j :: 0 <= i < j ==> !tools.isEqual(i, j)
    ensures r == Found([2, 1])
  {
    hide Answers, Deduped, WithTerms, Numbered, TermsOf, WebPageQuery.AnswersRanked, WebPageQuery.AllAnswers;
    hide WebPageQuery.NoTies, AreTwelve, DocumentFrequencies, Roots, WebPageQuery.Cosine, IndexedBy, TableOf;
    var pre := new PageLibPreprocessor(tools);
    var items := Twelve();
    pre.Do(items);
    var web := new WebPageQuery(pre, items);
    TwelveStay(tools);
    TwoWords("common", "rare");
    assert web.Question("both") == Both;
    ClosestOfTwelve(web);
    ghost var pages := pre.pages;
    forall id ensures Answers(pages, id, Both) <==> id == 1 || id == 2 { TwoAnswer(pages, id); }
    r := web.DoQuery("both");
    assert Answers(pages, 1, Both) && pre.pages == pages && web.pre == pre && "rare" in Both;
    TwoInOrder(web, r.ids, Both, 2, 1);
  }
}
