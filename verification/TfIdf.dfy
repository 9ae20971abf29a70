/** CaculateValue and CaculateCosSimilarity: the TF-IDF weights of a page or query, and the cosine of two of them. */
module TfIdf {
  import opened Sums
  import opened Tally

  type Terms = map<string, nat>

  /** The square root and the binary logarithm of the C library. */
  datatype Maths = Maths(sqrt: real -> real, log2: real -> real)

  ghost predicate Roots(m: Maths) { forall x :: x >= 0.0 ==> m.sqrt(x) >= 0.0 && Mul(m.sqrt(x), m.sqrt(x)) == x }

  /** operator[] on a map of counts */
  function Frequency(frequencies: Terms, t: string): nat { if t in frequencies then frequencies[t] else 0 }

  /** log2(N / (DF + 1)) */
  function Idf(frequencies: Terms, total: nat, m: Maths, t: string): real {
    m.log2(total as real / (Frequency(frequencies, t) + 1) as real)
  }

  function Root(x: Double, m: Maths): Double { if x.Finite? then Finite(m.sqrt(x.r)) else NaN }

  /** TF * IDF for each term */
  ghost function Raw(terms: Terms, frequencies: Terms, total: nat, m: Maths): (v: Vector)
    ensures v.Keys == terms.Keys && AllFinite(v)
  {
    map t | t in terms :: Finite(Mul(terms[t] as real, Idf(frequencies, total, m, t)))
  }

  ghost function Length(v: Vector, m: Maths): Double { Root(Squares(v), m) }

  lemma RootIsZero(m: Maths, x: real)
    requires Roots(m) && x >= 0.0
    ensures m.sqrt(x) >= 0.0 && (m.sqrt(x) == 0.0 ==> x == 0.0) && (x == 0.0 ==> m.sqrt(x) == 0.0)
  {
    hide Mul;
    MulSign(m.sqrt(x));
  }

  /** Only a zero vector has length zero, so that no weight divides a non-zero number by zero. */
  lemma LengthIsZero(v: Vector, m: Maths)
    requires Roots(m) && AllFinite(v)
    ensures Length(v, m).Finite? && Length(v, m).r >= 0.0
    ensures Length(v, m).r == 0.0 <==> forall t :: t in v ==> v[t].r == 0.0
  {
    hide Squares, Mul;
    SquaresSign(v);
    RootIsZero(m, Squares(v).r);
    if t :| t in v && v[t].r != 0.0 {
      SquaresPositive(v, t);
    } else {
      assert forall t :: t in v ==> v[t] == Finite(0.0);
      SquaresZero(v);
    }
  }

  /** The weights are the raw ones divided by their length: all NaN when that is zero. */
  ghost function Weights(terms: Terms, frequencies: Terms, total: nat, m: Maths): (v: Vector)
    requires Roots(m)
    ensures v.Keys == terms.Keys
  {
    var raw := Raw(terms, frequencies, total, m);
    LengthIsZero(raw, m);
    map t | t in terms :: Over(raw[t], Length(raw, m))
  }

  method SumOfSquares(v: Vector) returns (sum: Double)
    ensures sum == Squares(v)
  {
    sum := Finite(0.0);
    var todo := v.Keys;
    assert v - todo == map[] && Products(map[], map[]) == map[];
    while todo != {}
      invariant todo <= v.Keys && sum == Squares(v - todo)
    {
      var t := Any(todo);
      SquaresAdd(v - todo, t, v[t]);
      assert v - (todo - {t}) == (v - todo)[t := v[t]];
      sum := Plus(Times(v[t], v[t]), sum);
      todo := todo - {t};
    }
    assert v - todo == v;
  }

  method CaculateValue(terms: Terms, frequencies: Terms, total: nat, m: Maths) returns (weights: Vector)
    requires Roots(m)
    ensures weights == Weights(terms, frequencies, total, m)
  {
    ghost var raw := Raw(terms, frequencies, total, m);
    weights := map[];
    var todo := terms.Keys;
    while todo != {}
      invariant todo <= terms.Keys && weights == raw - todo
    {
      var t := Any(todo);
      var weight := Finite(Mul(terms[t] as real, Idf(frequencies, total, m, t)));
      assert raw[t] == weight;
      weights := weights[t := weight];
      assert raw - (todo - {t}) == (raw - todo)[t := raw[t]];
      todo := todo - {t};
    }
    assert weights == raw;
    var sum := SumOfSquares(weights);
    LengthIsZero(raw, m);
    hide Raw, Length;
    weights := DivideAll(weights, Root(sum, m));
  }

  /** The last loop of CaculateValue. */
  method DivideAll(v: Vector, length: Double) returns (r: Vector)
    requires forall t :: t in v ==> Divides(v[t], length)
    ensures r.Keys == v.Keys && forall t :: t in v ==> r[t] == Over(v[t], length)
  {
    r := v;
    var todo := r.Keys;
    while todo != {}
      invariant todo <= v.Keys && r.Keys == v.Keys
      invariant forall t :: t in v ==> r[t] == if t in todo then v[t] else Over(v[t], length)
    {
      var t := Any(todo);
      r := r[t := Over(r[t], length)];
      todo := todo - {t};
    }
  }

  // ----- the cosine -----

  /** Thrown stands for the runtime_error of CaculateCosSimilarity. */
  datatype Cosine = Thrown | Value(c: Double)

  lemma LengthIsNaN(v: Vector, m: Maths)
    requires !AllFinite(v)
    ensures Length(v, m) == NaN
  {
    DotFinite(v, v);
  }

  /** The product of the lengths is zero only if one of the vectors is. */
  lemma LengthsNotZero(x: Vector, y: Vector, m: Maths)
    requires Roots(m) && AllFinite(x) && AllFinite(y)
    requires exists t :: t in x && x[t].r != 0.0
    requires exists t :: t in y && y[t].r != 0.0
    ensures var l := Times(Length(x, m), Length(y, m)); l.Finite? && l.r != 0.0
  {
    hide Length, Mul, Roots;
    LengthIsZero(x, m);
    LengthIsZero(y, m);
    MulNotZero(Length(x, m).r, Length(y, m).r);
  }

  lemma ZeroDot(x: Vector, y: Vector)
    requires x.Keys <= y.Keys && AllFinite(x) && AllFinite(y)
    requires (forall t :: t in x ==> x[t].r == 0.0) || forall t :: t in y ==> y[t].r == 0.0
    ensures Dot(x, y) == Finite(0.0)
  {
    forall t | t in x ensures Times(x[t], y[t]) == Finite(0.0) {
      MulZero(x[t].r, y[t].r);
    }
    hide Mul;
    DotZero(x, y);
  }

  /** The lengths of the two vectors can only have the product zero when X * Y is zero too. */
  lemma DotDivides(x: Vector, y: Vector, m: Maths)
    requires Roots(m) && x.Keys <= y.Keys
    ensures Divides(Dot(x, y), Times(Length(x, m), Length(y, m)))
  {
    hide Length, Dot, Mul, Roots;
    if !AllFinite(x) {
      LengthIsNaN(x, m);
    } else if !AllFinite(y) {
      LengthIsNaN(y, m);
    } else if (forall t :: t in x ==> x[t].r == 0.0) || forall t :: t in y ==> y[t].r == 0.0 {
      ZeroDot(x, y);
    } else {
      LengthsNotZero(x, y, m);
    }
  }

  /** (X * Y) / (|X| * |Y|) */
  ghost function CosineOf(x: Vector, y: Vector, m: Maths): Double
    requires Roots(m) && x.Keys <= y.Keys
  {
    DotDivides(x, y, m);
    Over(Dot(x, y), Times(Length(x, m), Length(y, m)))
  }

  /** It throws exactly when x has a term that y has not. */
  method CaculateCosSimilarity(x: Vector, y: Vector, m: Maths) returns (r: Cosine)
    requires Roots(m)
    ensures r == Thrown <==> !(x.Keys <= y.Keys)
    ensures x.Keys <= y.Keys ==> r == Value(CosineOf(x, y, m))
  {
    var sum := Finite(0.0);
    var todo := x.Keys;
    assert x - todo == map[] && Products(map[], y) == map[];
    while todo != {}
      invariant todo <= x.Keys && (x - todo).Keys <= y.Keys && sum == Dot(x - todo, y)
    {
      var t := Any(todo);
      if t !in y {
        return Thrown;
      }
      DotAdd(x - todo, y, t, x[t]);
      assert x - (todo - {t}) == (x - todo)[t := x[t]];
      sum := Plus(Times(x[t], y[t]), sum);
      todo := todo - {t};
    }
    assert x - todo == x;
    var xSquares := SumOfSquares(x);
    var ySquares := SumOfSquares(y);
    DotDivides(x, y, m);
    return Value(Over(sum, Times(Root(xSquares, m), Root(ySquares, m))));
  }

  // ----- what the cosine of a query and a page that has all its words comes to -----

  /** The weights of the query's words among those of a page. */
  ghost function Restricted(v: Vector, words: set<string>): (r: Vector)
    ensures r.Keys == v.Keys * words
  {
    map t | t in v && t in words :: v[t]
  }

  ghost predicate Counted(terms: Terms) { forall t :: t in terms ==> terms[t] >= 1 }

  ghost predicate NoIdf(query: Terms, frequencies: Terms, total: nat, m: Maths) {
    forall t :: t in query ==> Idf(frequencies, total, m, t) == 0.0
  }

  lemma RawIsZero(terms: Terms, frequencies: Terms, total: nat, m: Maths, t: string)
    requires Counted(terms) && t in terms
    ensures Raw(terms, frequencies, total, m)[t].r == 0.0 <==> Idf(frequencies, total, m, t) == 0.0
  {
    hide Mul, Idf;
    var tf, idf := terms[t] as real, Idf(frequencies, total, m, t);
    assert tf >= 1.0;
    if idf != 0.0 {
      MulNotZero(tf, idf);
    } else {
      MulZero(tf, idf);
    }
  }

  /** Unless all its terms have an IDF of zero, a page has a positive length, and all weights are numbers. */
  lemma PositiveLength(terms: Terms, frequencies: Terms, total: nat, m: Maths)
    requires Roots(m) && Counted(terms) && !NoIdf(terms, frequencies, total, m)
    ensures var raw := Raw(terms, frequencies, total, m);
      Length(raw, m).Finite? && Length(raw, m).r > 0.0
    ensures AllFinite(Weights(terms, frequencies, total, m))
  {
    hide Mul, Idf, Length, Roots;
    var raw := Raw(terms, frequencies, total, m);
    LengthIsZero(raw, m);
    var t :| t in terms && Idf(frequencies, total, m, t) != 0.0;
    RawIsZero(terms, frequencies, total, m, t);
  }

  /** Each weight is a positive multiple of its term's IDF. */
  lemma WeightIs(terms: Terms, frequencies: Terms, total: nat, m: Maths, t: string) returns (s: real)
    requires Roots(m) && Counted(terms) && !NoIdf(terms, frequencies, total, m) && t in terms
    ensures s > 0.0
    ensures Weights(terms, frequencies, total, m)[t] == Finite(Mul(s, Idf(frequencies, total, m, t)))
  {
    hide Mul, Div, Idf, Length, Roots;
    PositiveLength(terms, frequencies, total, m);
    var tf, idf := terms[t] as real, Idf(frequencies, total, m, t);
    var length := Length(Raw(terms, frequencies, total, m), m).r;
    s := Div(tf, length);
    Quotient(tf, idf, length);
  }

  lemma Quotient(p: real, q: real, s: real)
    requires s > 0.0 && p >= 1.0
    ensures Div(Mul(p, q), s) == Mul(Div(p, s), q) && Div(p, s) > 0.0
  {
  }

  /** Weights of one term in two vectors have the same sign: both are positive multiples of its IDF. */
  lemma SameSign(s: real, t: real, idf: real)
    requires s > 0.0 && t > 0.0
    ensures Mul(Mul(s, idf), Mul(t, idf)) >= 0.0
    ensures idf != 0.0 ==> Mul(Mul(s, idf), Mul(t, idf)) > 0.0
  {
    hide Mul;
    var p, q := Mul(s, t), Mul(idf, idf);
    MulSign(idf);
    MulPositive(s, t);
    FourMul(s, idf, t, idf);
    Scale(0.0, p, q);
    MulZero(0.0, q);
    if idf != 0.0 { MulPositive(p, q); }
  }

  lemma WeightIsNaN(terms: Terms, frequencies: Terms, total: nat, m: Maths, t: string)
    requires Roots(m) && Counted(terms) && t in terms && NoIdf(terms, frequencies, total, m)
    ensures Weights(terms, frequencies, total, m)[t] == NaN
  {
    hide Mul, Idf, Length, Roots;
    var raw := Raw(terms, frequencies, total, m);
    forall k | k in terms ensures raw[k] == Finite(0.0) { RawIsZero(terms, frequencies, total, m, k); }
    LengthIsZero(raw, m);
  }

  lemma QueryWithoutIdf(query: Terms, y: Vector, frequencies: Terms, total: nat, m: Maths)
    requires Roots(m) && Counted(query) && query != map[] && query.Keys <= y.Keys && NoIdf(query, frequencies, total, m)
    ensures CosineOf(Weights(query, frequencies, total, m), y, m) == NaN
  {
    hide Weights, Dot, Length, Mul, Roots;
    var t :| t in query;
    WeightIsNaN(query, frequencies, total, m, t);
    DotFinite(Weights(query, frequencies, total, m), y);
  }

  lemma SharedSign(query: Terms, terms: Terms, frequencies: Terms, total: nat, m: Maths, t: string)
    requires Roots(m) && Counted(query) && Counted(terms) && query.Keys <= terms.Keys && t in query
    requires !NoIdf(query, frequencies, total, m)
    ensures var x, y := Weights(query, frequencies, total, m)[t], Weights(terms, frequencies, total, m)[t];
      && x.Finite? && y.Finite? && Mul(x.r, y.r) >= 0.0
      && (Idf(frequencies, total, m, t) != 0.0 ==> Mul(x.r, y.r) > 0.0 && x.r != 0.0 && y.r != 0.0)
  {
    hide Weights, Idf, Mul, Roots;
    var a := WeightIs(query, frequencies, total, m, t);
    assert !NoIdf(terms, frequencies, total, m) by {
      var k :| k in query && Idf(frequencies, total, m, k) != 0.0;
      assert k in terms;
    }
    var b := WeightIs(terms, frequencies, total, m, t);
    var idf := Idf(frequencies, total, m, t);
    SameSign(a, b, idf);
    if idf != 0.0 {
      MulNotZero(a, idf);
      MulNotZero(b, idf);
    }
  }

  lemma CosineBounds(x: Vector, y: Vector, m: Maths)
    requires Roots(m) && x.Keys == y.Keys && AllFinite(x) && AllFinite(y)
    requires Dot(x, y).Finite? && Dot(x, y).r > 0.0 && (exists t :: t in x && x[t].r != 0.0) &&
      (exists t :: t in y && y[t].r != 0.0)
    ensures CosineOf(x, y, m).Finite? && 0.0 < CosineOf(x, y, m).r <= 1.0
  {
    hide Dot, Squares, Mul, Div;
    CauchySchwarz(x, y);
    LengthIsZero(x, m);
    LengthIsZero(y, m);
    SquaresSign(x);
    SquaresSign(y);
    DotDivides(x, y, m);
    var p, q, d := Length(x, m).r, Length(y, m).r, Dot(x, y).r;
    MulPositive(p, q);
    LengthsProduct(p, q, Squares(x).r, Squares(y).r, d);
    Ratio(d, Mul(p, q));
  }

  lemma LengthsProduct(p: real, q: real, a: real, b: real, d: real)
    requires p > 0.0 && q > 0.0 && Mul(p, p) == a && Mul(q, q) == b && Mul(d, d) <= Mul(a, b)
    ensures d <= Mul(p, q)
  {
    hide Mul;
    MulPositive(p, q);
    CrossSquared(p, q);
    RootOrder(d, Mul(p, q));
  }

  lemma Ratio(d: real, l: real)
    requires 0.0 < d <= l
    ensures 0.0 < Div(d, l) <= 1.0
  {
  }

  /** A page that has all words of the query never makes the cosine throw. Their cosine is a positive number of at most
      1, unless all words of the query have an IDF of zero, when it is NaN. */
  lemma CosineRange(query: Terms, terms: Terms, frequencies: Terms, total: nat, m: Maths)
    requires Roots(m) && Counted(query) && Counted(terms) && query != map[] && query.Keys <= terms.Keys
    ensures var x, y := Weights(query, frequencies, total, m),
      Restricted(Weights(terms, frequencies, total, m), query.Keys);
      && x.Keys == y.Keys
      && (CosineOf(x, y, m) == NaN <==> NoIdf(query, frequencies, total, m))
      && (CosineOf(x, y, m).Finite? ==> 0.0 < CosineOf(x, y, m).r <= 1.0)
  {
    hide Weights, CosineOf, Idf, Mul, Roots;
    var x, y := Weights(query, frequencies, total, m), Restricted(Weights(terms, frequencies, total, m), query.Keys);
    if NoIdf(query, frequencies, total, m) {
      QueryWithoutIdf(query, y, frequencies, total, m);
    } else {
      SharedSigns(query, terms, frequencies, total, m);
      CosineBounds(x, y, m);
    }
  }

  lemma SharedSigns(query: Terms, terms: Terms, frequencies: Terms, total: nat, m: Maths)
    requires Roots(m) && Counted(query) && Counted(terms) && query.Keys <= terms.Keys
    requires !NoIdf(query, frequencies, total, m)
    ensures var x, y := Weights(query, frequencies, total, m),
      Restricted(Weights(terms, frequencies, total, m), query.Keys);
      && x.Keys == y.Keys && AllFinite(x) && AllFinite(y) && Dot(x, y).Finite? && Dot(x, y).r > 0.0
      && (exists t :: t in x && x[t].r != 0.0) && (exists t :: t in y && y[t].r != 0.0)
  {
    hide Weights, Dot, Mul, Roots;
    var x, y := Weights(query, frequencies, total, m), Restricted(Weights(terms, frequencies, total, m), query.Keys);
    var t :| t in query && Idf(frequencies, total, m, t) != 0.0;
    hide Idf;
    forall k | k in query ensures x[k].Finite? && y[k].Finite? && Mul(x[k].r, y[k].r) >= 0.0 {
      SharedSign(query, terms, frequencies, total, m, k);
    }
    SharedSign(query, terms, frequencies, total, m, t);
    DotPositive(x, y, t);
  }

  // ----- one word -----

  lemma SingleDot(x: Vector, y: Vector, t: string)
    requires x.Keys == {t} && y.Keys == {t}
    ensures Dot(x, y) == Times(x[t], y[t])
  {
    DotRemove(x, y, t);
    EmptyDot(x - {t}, y - {t});
  }

  lemma SameRatio(d: real, p: real, q: real, a: real, b: real)
    requires p >= 0.0 && q >= 0.0 && Mul(p, p) == Mul(a, a) && Mul(q, q) == Mul(b, b)
    requires d == Mul(a, b) && d > 0.0
    ensures Mul(p, q) == d
  {
    hide Mul;
    CrossSquared(p, q);
    CrossSquared(a, b);
    Scale(0.0, p, q);
    MulZero(0.0, q);
    RootOrder(d, Mul(p, q));
    RootOrder(Mul(p, q), d);
  }

  /** To a question of one word all pages that contain it have the cosine 1, unless the word has an IDF of zero. */
  lemma OneWordCosine(query: Terms, terms: Terms, frequencies: Terms, total: nat, m: Maths, t: string)
    requires Roots(m) && Counted(query) && Counted(terms) && query.Keys == {t} && t in terms
    requires !NoIdf(query, frequencies, total, m)
    ensures var x, y := Weights(query, frequencies, total, m),
      Restricted(Weights(terms, frequencies, total, m), query.Keys);
      x.Keys <= y.Keys && CosineOf(x, y, m) == Finite(1.0)
  {
    hide Weights, Idf, Dot, Mul, Roots;
    var x, y := Weights(query, frequencies, total, m), Restricted(Weights(terms, frequencies, total, m), query.Keys);
    SharedSigns(query, terms, frequencies, total, m);
    SingleCosine(x, y, m, t);
  }

  lemma SingleCosine(x: Vector, y: Vector, m: Maths, t: string)
    requires Roots(m) && x.Keys == {t} && y.Keys == {t} && AllFinite(x) && AllFinite(y)
    requires Dot(x, y).Finite? && Dot(x, y).r > 0.0
    ensures CosineOf(x, y, m) == Finite(1.0)
  {
    hide Dot, Mul;
    SingleDot(x, y, t);
    SingleDot(x, x, t);
    SingleDot(y, y, t);
    SquaresSign(x);
    SquaresSign(y);
    DotDivides(x, y, m);
    var a, b, p, q, d := x[t].r, y[t].r, Length(x, m).r, Length(y, m).r, Dot(x, y).r;
    assert Mul(p, p) == Mul(a, a) && Mul(q, q) == Mul(b, b);
    SameRatio(d, p, q, a, b);
    assert Times(Length(x, m), Length(y, m)) == Finite(Mul(p, q));
    OverItself(d);
  }

  lemma OverItself(d: real)
    requires d > 0.0
    ensures Over(Finite(d), Finite(d)) == Finite(1.0)
  {
    Itself(d);
  }

  lemma Itself(d: real)
    requires d > 0.0
    ensures Div(d, d) == 1.0
  {
  }
}
