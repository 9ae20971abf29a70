/** WebPageQuery: which pages answer a query, and in which order. */
module PageQuery {
  import opened Sums
  import opened Tally
  import opened TfIdf
  import opened InvertedIndex

  /** The page with this id contains the term. */
  ghost predicate Has(pages: seq<Page>, id: nat, t: string) { exists p :: p in pages && p.id == id && t in p.terms }

  ghost function Having(pages: seq<Page>): (string, nat) -> bool { (t: string, id: nat) => Has(pages, id, t) }

  lemma NoTally(counts: map<nat, nat>, found: (string, nat) -> bool)
    requires counts == map[]
    ensures Tallies(counts, found, {})
  {
  }

  /** The page with this id contains all terms of the query: what a scan of the pages finds. */
  ghost predicate Answers(pages: seq<Page>, id: nat, query: Terms) {
    exists p :: p in pages && p.id == id && query.Keys <= p.terms.Keys
  }

  ghost predicate Distinct<T>(s: seq<T>) { forall i, j :: 0 <= i < j < |s| ==> s[i] != s[j] }

  lemma SameId(pages: seq<Page>, p: Page, q: Page)
    requires Ascending(pages) && p in pages && q in pages && p.id == q.id
    ensures p == q
  {
    var i :| 0 <= i < |pages| && pages[i] == p;
    var j :| 0 <= j < |pages| && pages[j] == q;
  }

  ghost function Ids(entries: set<(nat, Double)>): set<nat> { set e | e in entries :: e.0 }

  /** The table has one entry for each page with the term. */
  ghost predicate OneEach(entries: set<(nat, Double)>) {
    forall e, f :: e in entries && f in entries && e.0 == f.0 ==> e == f
  }

  lemma ListingIs(pages: seq<Page>, frequencies: Terms, m: Maths, t: string)
    requires Ascending(pages) && Roots(m)
    ensures var entries := Listing(pages, |pages|, frequencies, m, t);
      OneEach(entries) && forall id :: id in Ids(entries) <==> Has(pages, id, t)
  {
    hide Weights;
    var entries := Listing(pages, |pages|, frequencies, m, t);
    forall id ensures id in Ids(entries) <==> Has(pages, id, t) {
      if p :| p in pages && p.id == id && t in p.terms {
        var i :| 0 <= i < |pages| && pages[i] == p;
        assert (id, Weights(p.terms, frequencies, |pages|, m)[t]) in entries;
      }
    }
  }

  /** The pages that have every term of the query are those that all its terms lead to. */
  lemma AnswersHaveAll(pages: seq<Page>, id: nat, query: Terms)
    requires Ascending(pages) && query != map[]
    ensures Answers(pages, id, query) <==> forall t :: t in query.Keys ==> Has(pages, id, t)
  {
    if forall t :: t in query.Keys ==> Has(pages, id, t) {
      var t :| t in query.Keys;
      var p :| p in pages && p.id == id && t in p.terms;
      forall u | u in query.Keys ensures u in p.terms {
        var q :| q in pages && q.id == id && u in q.terms;
        SameId(pages, p, q);
      }
    }
  }

  // ----- ordering by score -----

  type Score = (Double, nat)

  /** std::greater on doubles: false as soon as a NaN is compared. */
  predicate Greater(x: Double, y: Double) { x.Finite? && y.Finite? && x.r > y.r }

  /** insert on a map ordered by std::greater: nothing when an equivalent score is there. */
  function InsertScore(s: seq<Score>, e: Score): seq<Score> {
    if s == [] || Greater(e.0, s[0].0) then [e] + s
    else if Greater(s[0].0, e.0) then [s[0]] + InsertScore(s[1..], e)
    else s
  }

  /** The scores inserted one by one. */
  ghost function Ordering(s: seq<Score>): seq<Score> {
    if s == [] then [] else InsertScore(Ordering(s[..|s| - 1]), s[|s| - 1])
  }

  ghost predicate Descending(s: seq<Score>) { forall i, j :: 0 <= i < j < |s| ==> Greater(s[i].0, s[j].0) }

  /** Scores are numbers, all of them, or NaN, all of them: std::greater orders either, but no mixture. */
  ghost predicate Ordered(s: seq<Score>) { (forall e :: e in s ==> e.0.Finite?) || (forall e :: e in s ==> e.0 == NaN) }

  ghost function Elements(s: seq<Score>): set<Score> { set e | e in s }

  ghost function Cosines(s: seq<Score>): set<Double> { set e | e in s :: e.0 }

  /** r holds some of s, and all scores. */
  ghost predicate Keeps(s: seq<Score>, r: seq<Score>) { Elements(r) <= Elements(s) && Cosines(r) == Cosines(s) }

  lemma SetsOfSum(s: seq<Score>, t: seq<Score>)
    ensures Elements(s + t) == Elements(s) + Elements(t) && Cosines(s + t) == Cosines(s) + Cosines(t)
  {
    assert forall e :: e in s + t <==> e in s || e in t;
  }

  lemma SetsOfOne(e: Score)
    ensures Elements([e]) == {e} && Cosines([e]) == {e.0}
  {
    assert e in [e];
  }

  lemma {:induction false} InsertIs(s: seq<Score>, e: Score)
    requires Descending(s) && Ordered(s + [e])
    ensures var r := InsertScore(s, e); Descending(r) && Keeps(s + [e], r)
  {
    hide Elements, Cosines;
    SetsOfSum(s, [e]);
    SetsOfSum([e], s);
    SetsOfOne(e);
    if s != [] {
      assert s[0] in s + [e] && e in s + [e];
      SetsOfHead(s);
      if !Greater(e.0, s[0].0) {
        if Greater(s[0].0, e.0) {
          assert forall x :: x in s[1..] + [e] ==> x in s + [e];
          InsertIs(s[1..], e);
          SetsOfSum(s[1..], [e]);
          SetsOfOne(s[0]);
          SetsOfSum([s[0]], InsertScore(s[1..], e));
          Behind(s, e, InsertScore(s[1..], e));
        } else {
          assert s[0].0 == e.0;
        }
      }
    }
  }

  lemma SetsOfHead(s: seq<Score>)
    requires s != []
    ensures Elements(s) == {s[0]} + Elements(s[1..]) && Cosines(s) == {s[0].0} + Cosines(s[1..])
  {
    assert s == [s[0]] + s[1..];
    SetsOfSum([s[0]], s[1..]);
    SetsOfOne(s[0]);
  }

  lemma Behind(s: seq<Score>, e: Score, rest: seq<Score>)
    requires s != [] && Descending(s) && Greater(s[0].0, e.0) && Descending(rest)
    requires Elements(rest) <= Elements(s[1..] + [e])
    ensures Descending([s[0]] + rest)
  {
    forall i | 0 <= i < |rest| ensures Greater(s[0].0, rest[i].0) {
      assert rest[i] in Elements(rest);
      assert rest[i] in s[1..] + [e];
    }
  }

  /** The scores end up in strictly descending order; of those that are equal one stays. */
  lemma {:induction false} OrderingIs(s: seq<Score>)
    requires Ordered(s)
    ensures Descending(Ordering(s)) && Keeps(s, Ordering(s))
  {
    if s != [] {
      var init, e := s[..|s| - 1], s[|s| - 1];
      assert s == init + [e];
      OrderedPart(s, init);
      OrderingIs(init);
      var o := Ordering(init);
      SetsOfSum(init, [e]);
      SetsOfSum(o, [e]);
      OrderedPart(s, o + [e]);
      hide Elements, Cosines, InsertScore, Ordered, Descending;
      InsertIs(o, e);
    }
  }

  lemma OrderedPart(s: seq<Score>, t: seq<Score>)
    requires Ordered(s) && Elements(t) <= Elements(s)
    ensures Ordered(t)
  {
    forall e | e in t ensures e in s { assert e in Elements(t); }
  }

  /** Failed stands for the exception that leaves DoQuery. */
  datatype Order = Failed | InOrder(ids: seq<nat>)

  datatype Answer = Error | NoAnswer | Found(ids: seq<nat>)

  type DocsVector = seq<(nat, Vector)>

  ghost predicate Comparable(base: Vector, vectors: DocsVector) {
    forall k :: 0 <= k < |vectors| ==> base.Keys <= vectors[k].1.Keys
  }

  ghost function Scores(base: Vector, vectors: DocsVector, m: Maths): (r: seq<Score>)
    requires Roots(m) && Comparable(base, vectors)
    ensures |r| == |vectors|
  {
    seq(|vectors|, k requires 0 <= k < |vectors| => (CosineOf(base, vectors[k].1, m), vectors[k].0))
  }

  lemma ScoresStep(base: Vector, vectors: DocsVector, m: Maths, k: nat)
    requires Roots(m) && k < |vectors| && Comparable(base, vectors[..k]) && base.Keys <= vectors[k].1.Keys
    ensures Comparable(base, vectors[..k + 1])
    ensures Ordering(Scores(base, vectors[..k + 1], m)) ==
      InsertScore(Ordering(Scores(base, vectors[..k], m)), (CosineOf(base, vectors[k].1, m), vectors[k].0))
  {
    var s, t := Scores(base, vectors[..k], m), Scores(base, vectors[..k + 1], m);
    hide CosineOf;
    assert t[..k] == s;
  }

  ghost function IdsOf(s: seq<Score>): (r: seq<nat>)
    ensures |r| == |s| && forall k :: 0 <= k < |s| ==> r[k] == s[k].1
  {
    if s == [] then [] else [s[0].1] + IdsOf(s[1..])
  }

  /** GetPagesOrder: the ids by descending cosine, one for each cosine. */
  method GetPagesOrder(base: Vector, vectors: DocsVector, m: Maths) returns (r: Order)
    requires Roots(m)
    ensures r == Failed <==> !Comparable(base, vectors)
    ensures r != Failed ==> r.ids == IdsOf(Ordering(Scores(base, vectors, m)))
  {
    var ordered: seq<Score> := [];
    for k := 0 to |vectors|
      invariant Comparable(base, vectors[..k]) && ordered == Ordering(Scores(base, vectors[..k], m))
    {
      hide CosineOf, Scores, Ordering;
      var cosine := CaculateCosSimilarity(base, vectors[k].1, m);
      if cosine == Thrown {
        return Failed;
      }
      ScoresStep(base, vectors, m, k);
      ordered := InsertScore(ordered, (cosine.c, vectors[k].0));
    }
    assert vectors[..|vectors|] == vectors;
    var ids: seq<nat> := [];
    for k := 0 to |ordered|
      invariant |ids| == k && forall j :: 0 <= j < k ==> ids[j] == ordered[j].1
    {
      ids := ids + [ordered[k].1];
    }
    return InOrder(ids);
  }

  // ----- the pages that answer, as vectors -----

  /** The weights of the query's words in the page with this id. */
  ghost function PageVector(indexed: map<nat, Page>, frequencies: Terms, total: nat, m: Maths, query: Terms,
                            id: nat): Vector
    requires Roots(m) && id in indexed
  {
    Restricted(Weights(indexed[id].terms, frequencies, total, m), query.Keys)
  }

  ghost predicate Full(indexed: map<nat, Page>, query: Terms, id: nat) {
    id in indexed && query.Keys <= indexed[id].terms.Keys && Counted(indexed[id].terms)
  }

  ghost predicate VectorsOf(vectors: DocsVector, indexed: map<nat, Page>, frequencies: Terms, total: nat, m: Maths,
                            query: Terms)
    requires Roots(m)
  {
    forall k :: 0 <= k < |vectors| ==>
      Full(indexed, query, vectors[k].0) &&
        vectors[k].1 == PageVector(indexed, frequencies, total, m, query, vectors[k].0)
  }

  lemma NoVectors(vectors: DocsVector, indexed: map<nat, Page>, frequencies: Terms, total: nat, m: Maths, query: Terms)
    requires Roots(m) && vectors == []
    ensures VectorsOf(vectors, indexed, frequencies, total, m, query)
  {
  }

  lemma OneMoreVector(vectors: DocsVector, id: nat, vector: Vector, indexed: map<nat, Page>, frequencies: Terms,
                      total: nat,
                      m: Maths, query: Terms)
    requires Roots(m) && VectorsOf(vectors, indexed, frequencies, total, m, query) && Full(indexed, query, id)
    requires vector == PageVector(indexed, frequencies, total, m, query, id)
    ensures VectorsOf(vectors + [(id, vector)], indexed, frequencies, total, m, query)
  {
    hide PageVector, Full;
  }

  /** The cosine of a query and the page with this id. */
  ghost function CosineTo(indexed: map<nat, Page>, frequencies: Terms, total: nat, m: Maths, query: Terms,
                          id: nat): Double
    requires Roots(m)
  {
    if Full(indexed, query, id) then
      CosineOf(Weights(query, frequencies, total, m), PageVector(indexed, frequencies, total, m, query, id), m)
    else NaN
  }

  /** Either all words of the query have an IDF of zero, and all cosines are NaN, or all are positive and at most 1. */
  lemma CosinesOrdered(indexed: map<nat, Page>, frequencies: Terms, total: nat, m: Maths, query: Terms, id: nat)
    requires Roots(m) && Counted(query) && query != map[] && Full(indexed, query, id)
    ensures Weights(query, frequencies, total, m).Keys <= PageVector(indexed, frequencies, total, m, query, id).Keys
    ensures var c := CosineTo(indexed, frequencies, total, m, query, id);
      if NoIdf(query, frequencies, total, m) then c == NaN else c.Finite? && 0.0 < c.r <= 1.0
  {
    CosineRange(query, indexed[id].terms, frequencies, total, m);
  }

  /** The ids come by strictly descending cosine. */
  ghost predicate Falling(ids: seq<nat>, indexed: map<nat, Page>, frequencies: Terms, total: nat, m: Maths,
                          query: Terms)
    requires Roots(m)
  {
    forall i, j :: 0 <= i < j < |ids| ==>
      Greater(CosineTo(indexed, frequencies, total, m, query, ids[i]),
        CosineTo(indexed, frequencies, total, m, query, ids[j]))
  }

  ghost predicate FromVectors(ids: seq<nat>, vectors: DocsVector) {
    forall id :: id in ids ==> exists k :: 0 <= k < |vectors| && vectors[k].0 == id
  }

  /** Some id has the cosine c. */
  ghost predicate Reached(ids: seq<nat>, c: Double, indexed: map<nat, Page>, frequencies: Terms, total: nat,
                          m: Maths, query: Terms)
    requires Roots(m)
  {
    exists id :: id in ids && CosineTo(indexed, frequencies, total, m, query, id) == c
  }

  /** The ids are of the vectors' pages, by strictly descending cosine, and no cosine is missing. */
  ghost predicate Ranks(ids: seq<nat>, vectors: DocsVector, indexed: map<nat, Page>, frequencies: Terms, total: nat,
                        m: Maths, query: Terms)
    requires Roots(m)
  {
    && Falling(ids, indexed, frequencies, total, m, query)
    && FromVectors(ids, vectors)
    && forall k :: 0 <= k < |vectors| ==>
         Reached(ids, CosineTo(indexed, frequencies, total, m, query, vectors[k].0), indexed, frequencies, total, m,
           query)
  }

  /** What GetPagesOrder makes of the vectors of the pages that answer. */
  lemma Ranked(vectors: DocsVector, indexed: map<nat, Page>, frequencies: Terms, total: nat, m: Maths, query: Terms)
    requires Roots(m) && Counted(query) && query != map[] && VectorsOf(vectors, indexed, frequencies, total, m, query)
    ensures Comparable(Weights(query, frequencies, total, m), vectors)
    ensures var ids := IdsOf(Ordering(Scores(Weights(query, frequencies, total, m), vectors, m)));
      Ranks(ids, vectors, indexed, frequencies, total, m, query)
  {
    forall k | 0 <= k < |vectors|
      ensures Weights(query, frequencies, total, m).Keys <= vectors[k].1.Keys
    {
      CosinesOrdered(indexed, frequencies, total, m, query, vectors[k].0);
    }
    var scores := Scores(Weights(query, frequencies, total, m), vectors, m);
    ScoresAre(scores, vectors, indexed, frequencies, total, m, query);
    hide Weights, CosineOf, CosineTo, Ordering, Scores;
    OrderingIs(scores);
    RankedScores(scores, Ordering(scores), vectors, indexed, frequencies, total, m, query);
  }

  /** Each score is the cosine of its page. */
  ghost predicate Scored(s: seq<Score>, vectors: DocsVector, indexed: map<nat, Page>, frequencies: Terms, total: nat,
                         m: Maths, query: Terms)
    requires Roots(m)
  {
    |s| == |vectors| && forall k :: 0 <= k < |s| ==>
      s[k] == (CosineTo(indexed, frequencies, total, m, query, vectors[k].0), vectors[k].0)
  }

  lemma ScoresAre(s: seq<Score>, vectors: DocsVector, indexed: map<nat, Page>, frequencies: Terms, total: nat,
                  m: Maths, query: Terms)
    requires Roots(m) && Counted(query) && query != map[] && VectorsOf(vectors, indexed, frequencies, total, m, query)
    requires Comparable(Weights(query, frequencies, total, m), vectors)
    requires s == Scores(Weights(query, frequencies, total, m), vectors, m)
    ensures Scored(s, vectors, indexed, frequencies, total, m, query) && Ordered(s)
  {
    hide Weights, CosineOf, PageVector;
    forall k | 0 <= k < |s|
      ensures s[k] == (CosineTo(indexed, frequencies, total, m, query, vectors[k].0), vectors[k].0)
      ensures s[k].0.Finite? <==> !NoIdf(query, frequencies, total, m)
    {
      CosinesOrdered(indexed, frequencies, total, m, query, vectors[k].0);
    }
  }

  lemma RankedOne(s: seq<Score>, o: seq<Score>, vectors: DocsVector, indexed: map<nat, Page>, frequencies: Terms,
                  total: nat,
                  m: Maths, query: Terms, i: nat)
    requires Roots(m) && Scored(s, vectors, indexed, frequencies, total, m, query) && Keeps(s, o) && i < |o|
    ensures o[i].0 == CosineTo(indexed, frequencies, total, m, query, o[i].1)
    ensures exists k :: 0 <= k < |vectors| && vectors[k].0 == o[i].1
  {
    hide CosineTo;
    assert o[i] in Elements(o);
    var k :| 0 <= k < |s| && s[k] == o[i];
  }

  lemma NoneMissing(s: seq<Score>, o: seq<Score>, k: nat) returns (i: nat)
    requires Keeps(s, o) && k < |s|
    ensures i < |o| && o[i].0 == s[k].0
  {
    assert s[k].0 in Cosines(s);
    var e :| e in o && e.0 == s[k].0;
    i :| 0 <= i < |o| && o[i] == e;
  }

  lemma RankedScores(s: seq<Score>, o: seq<Score>, vectors: DocsVector, indexed: map<nat, Page>, frequencies: Terms,
                     total: nat,
                     m: Maths, query: Terms)
    requires Roots(m) && Scored(s, vectors, indexed, frequencies, total, m, query) && Descending(o) && Keeps(s, o)
    ensures Ranks(IdsOf(o), vectors, indexed, frequencies, total, m, query)
  {
    hide CosineTo, Keeps, Elements, Cosines, Reached;
    var ids := IdsOf(o);
    forall i | 0 <= i < |o|
      ensures o[i].0 == CosineTo(indexed, frequencies, total, m, query, ids[i])
      ensures exists k :: 0 <= k < |vectors| && vectors[k].0 == ids[i]
    {
      RankedOne(s, o, vectors, indexed, frequencies, total, m, query, i);
    }
    forall k | 0 <= k < |vectors|
      ensures Reached(ids, CosineTo(indexed, frequencies, total, m, query, vectors[k].0), indexed, frequencies, total,
        m, query)
    {
      var i := NoneMissing(s, o, k);
      IsReached(ids, i, indexed, frequencies, total, m, query);
    }
    assert Falling(ids, indexed, frequencies, total, m, query);
    assert FromVectors(ids, vectors);
  }

  lemma IsReached(ids: seq<nat>, i: nat, indexed: map<nat, Page>, frequencies: Terms, total: nat, m: Maths,
                  query: Terms)
    requires Roots(m) && i < |ids|
    ensures Reached(ids, CosineTo(indexed, frequencies, total, m, query, ids[i]), indexed, frequencies, total, m, query)
  {
    hide CosineTo;
    assert ids[i] in ids;
  }

  /** There is a vector for each page that answers, and for no other. */
  ghost predicate ForAnswers(vectors: DocsVector, pages: seq<Page>, query: Terms) {
    && (query == map[] ==> vectors == [])
    && (query != map[] ==>
          forall id :: Answers(pages, id, query) <==> exists k :: 0 <= k < |vectors| && vectors[k].0 == id)
  }

  lemma NoneOrSome(vectors: DocsVector, pages: seq<Page>, query: Terms)
    requires ForAnswers(vectors, pages, query)
    ensures vectors == [] <==> query == map[] || forall id :: !Answers(pages, id, query)
  {
    hide Answers;
    assert vectors != [] && query != map[] ==> Answers(pages, vectors[0].0, query);
  }

  lemma AllIds(ids: seq<nat>, vectors: DocsVector, pages: seq<Page>, query: Terms)
    requires |vectors| == |ids| && forall k :: 0 <= k < |ids| ==> vectors[k].0 == ids[k]
    requires forall id :: id in ids <==> query != map[] && Answers(pages, id, query)
    ensures ForAnswers(vectors, pages, query)
  {
    hide Answers;
    assert |ids| > 0 ==> ids[0] in ids;
    if query != map[] {
      forall id ensures Answers(pages, id, query) <==> exists k :: 0 <= k < |vectors| && vectors[k].0 == id {
        if id in ids {
          var k :| 0 <= k < |ids| && ids[k] == id;
          assert vectors[k].0 == id;
        }
      }
    }
  }

  /** The loop that picks the weights of the query's words. */
  method Restrict(v: Vector, words: set<string>) returns (r: Vector)
    ensures r == Restricted(v, words)
  {
    r := map[];
    var todo := words;
    while todo != {}
      invariant todo <= words && r == Restricted(v, words - todo)
    {
      var t := Any(todo);
      assert words - (todo - {t}) == words - todo + {t};
      todo := todo - {t};
      if t in v {
        r := r[t := v[t]];
      }
    }
    assert words - todo == words;
  }

  class WebPageQuery {
    const pre: PageLibPreprocessor
    ghost const items: seq<RawPage>

    constructor (pre: PageLibPreprocessor, ghost items: seq<RawPage>)
      ensures this.pre == pre && this.items == items
    {
      this.pre := pre;
      this.items := items;
    }

    /** One more for each page that the entries name. */
    method CountEntries(counts: map<nat, nat>, entries: set<(nat, Double)>) returns (r: map<nat, nat>)
      requires OneEach(entries)
      ensures Bumped(counts, r, Ids(entries))
    {
      r := counts;
      var todo := entries;
      while todo != {}
        invariant todo <= entries && Bumped(counts, r, Ids(entries - todo))
      {
        var e := Any(todo);
        assert Ids(entries - (todo - {e})) == Ids(entries - todo) + {e.0} && e.0 !in Ids(entries - todo);
        r := r[e.0 := (if e.0 in r then r[e.0] else 0) + 1];
        todo := todo - {e};
      }
      assert entries - todo == entries;
    }

    /** GetRelativePages: the ids a scan of the pages finds, once each; none for the empty query. */
    method GetRelativePages(query: Terms) returns (ids: seq<nat>)
      requires pre.Ready(items)
      ensures Distinct(ids) && forall id :: id in ids <==> query != map[] && Answers(pre.pages, id, query)
    {
      hide PageLibPreprocessor.Ready, Answers, Has, Tallies;
      var counts: map<nat, nat> := map[];
      var todo := query.Keys;
      NoTally(counts, Having(pre.pages));
      assert query.Keys - todo == {};
      while todo != {}
        invariant todo <= query.Keys && Tallies(counts, Having(pre.pages), query.Keys - todo)
      {
        var t := Any(todo);
        ReadyFor(t);
        if t !in pre.table {
          NoPageHas(pre.pages, query, t);
          return [];
        }
        ghost var before := counts;
        counts := CountEntries(counts, pre.table[t]);
        TallyStep(before, counts, Having(pre.pages), query.Keys - todo, t, Ids(pre.table[t]));
        assert query.Keys - (todo - {t}) == query.Keys - todo + {t};
        todo := todo - {t};
      }
      assert query.Keys - todo == query.Keys;
      ids := Select(counts, |query.Keys|);
      SelectsAnswers(counts, query);
    }

    lemma SelectsAnswers(counts: map<nat, nat>, query: Terms)
      requires pre.Ready(items) && Tallies(counts, Having(pre.pages), query.Keys)
      ensures forall id ::
        (id in counts && counts[id] == |query.Keys|) <==> query != map[] && Answers(pre.pages, id, query)
    {
      var pages := pre.pages;
      assert Ascending(pages);
      hide PageLibPreprocessor.Ready, Answers, Has;
      forall id ensures (id in counts && counts[id] == |query.Keys|) <==> query != map[] && Answers(pages, id, query) {
        if query != map[] {
          FullTally(counts, Having(pages), query.Keys, id);
          AnswersHaveAll(pages, id, query);
        } else {
          assert Hits(Having(pages), query.Keys, id) == {};
        }
      }
    }

    /** What the table holds of a term. */
    lemma ReadyFor(t: string)
      requires pre.Ready(items)
      ensures t in pre.table ==>
        OneEach(pre.table[t]) && forall id :: id in Ids(pre.table[t]) <==> Having(pre.pages)(t, id)
      ensures t !in pre.table ==> forall id :: !Has(pre.pages, id, t)
    {
      assert Entries(pre.table, t) == Listing(pre.pages, |pre.pages|, pre.frequencies, pre.tools.maths, t);
      ListingIs(pre.pages, pre.frequencies, pre.tools.maths, t);
      assert Ids({}) == {};
    }

    /** The last loop of GetRelativePages. */
    method Select(counts: map<nat, nat>, n: nat) returns (ids: seq<nat>)
      ensures Distinct(ids) && forall id :: id in ids <==> id in counts && counts[id] == n
    {
      ids := [];
      var todo := counts.Keys;
      while todo != {}
        invariant todo <= counts.Keys && Distinct(ids)
        invariant forall id :: id in ids <==> id in counts && id !in todo && counts[id] == n
      {
        var id := Any(todo);
        if counts[id] == n {
          ids := ids + [id];
        }
        todo := todo - {id};
      }
    }

    /** CaculateRelativePagesVectors: for each page that answers, the weights there of the query's words. */
    method CaculateRelativePagesVectors(query: Terms) returns (vectors: DocsVector)
      requires pre.Ready(items)
      ensures Roots(pre.tools.maths)
      ensures VectorsOf(vectors, pre.indexed, pre.frequencies, |pre.pages|, pre.tools.maths, query)
      ensures ForAnswers(vectors, pre.pages, query)
    {
      hide Answers, PageVector, Full, Roots, VectorsOf, ForAnswers;
      var ids := GetRelativePages(query);
      ReadyPages(query);
      hide PageLibPreprocessor.Ready;
      vectors := [];
      NoVectors(vectors, pre.indexed, pre.frequencies, |pre.pages|, pre.tools.maths, query);
      for i := 0 to |ids|
        invariant |vectors| == i && forall k :: 0 <= k < i ==> vectors[k].0 == ids[k]
        invariant VectorsOf(vectors, pre.indexed, pre.frequencies, |pre.pages|, pre.tools.maths, query)
      {
        assert ids[i] in ids;
        var vector := VectorFor(ids[i], query);
        OneMoreVector(vectors, ids[i], vector, pre.indexed, pre.frequencies, |pre.pages|, pre.tools.maths, query);
        vectors := vectors + [(ids[i], vector)];
      }
      AllIds(ids, vectors, pre.pages, query);
    }

    /** A turn of the loop of CaculateRelativePagesVectors. */
    method VectorFor(id: nat, query: Terms) returns (vector: Vector)
      requires Roots(pre.tools.maths) && Full(pre.indexed, query, id)
      ensures vector == PageVector(pre.indexed, pre.frequencies, |pre.pages|, pre.tools.maths, query, id)
    {
      hide Weights, Restricted;
      var page := pre.indexed[id];
      var all := CaculateValue(page.terms, pre.frequencies, |pre.pages|, pre.tools.maths);
      vector := Restrict(all, query.Keys);
    }

    /** The page of an id that answers is the indexed one. */
    lemma ReadyPages(query: Terms)
      requires pre.Ready(items)
      ensures Roots(pre.tools.maths)
      ensures forall id :: Answers(pre.pages, id, query) ==>
        Full(pre.indexed, query, id)
    {
      forall id | Answers(pre.pages, id, query) ensures Full(pre.indexed, query, id) {
        var p :| p in pre.pages && p.id == id && query.Keys <= p.terms.Keys;
        assert pre.indexed[id] == p;
        var i :| 0 <= i < |pre.pages| && pre.pages[i] == p;
      }
    }

    /** The terms of a question. */
    ghost function Question(sought: string): (query: Terms)
      ensures Counted(query)
    {
      TermsOf(pre.tools.segment(sought), pre.tools.stopWords)
    }

    ghost function Cosine(query: Terms, id: nat): Double
      reads pre
      requires Roots(pre.tools.maths)
    {
      CosineTo(pre.indexed, pre.frequencies, |pre.pages|, pre.tools.maths, query, id)
    }

    /** DoQuery: it throws nothing. It has no answer when the question has no terms or no page has them all. Otherwise
        the pages found have them all; they come by strictly descending cosine to the question; and each page that has
        them all is found, unless one with the same cosine is. So all of them are found if and only if no two have the
        same cosine; a question of one word finds one page, and so does a question whose words all have an IDF of
        zero. */
    method DoQuery(sought: string) returns (r: Answer)
      requires pre.Ready(items)
      ensures r != Error
      ensures r == NoAnswer <==> Question(sought) == map[] || forall id :: !Answers(pre.pages, id, Question(sought))
      ensures r.Found? ==> AnswersRanked(r.ids, Question(sought))
      ensures r.Found? ==> (AllAnswers(r.ids, Question(sought)) <==> NoTies(Question(sought)))
      ensures r.Found? && (|Question(sought)| == 1 || NoIdfFor(Question(sought))) ==> |r.ids| == 1
    {
      hide PageLibPreprocessor.Ready, Answers, AnswersRanked, TermsOf, AllAnswers, NoTies, NoIdfFor;
      var query := CutText(sought, map[], pre.tools);
      assert query == Question(sought);
      r := AnswerTo(query);
      if r.Found? {
        ReadyPages(query);
        AllFoundIffNoTies(r.ids, query);
        OneIsFound(r.ids, query);
      }
    }

    /** DoQuery once the question is cut into terms. */
    method AnswerTo(query: Terms) returns (r: Answer)
      requires pre.Ready(items) && Counted(query)
      ensures r != Error
      ensures r == NoAnswer <==> query == map[] || forall id :: !Answers(pre.pages, id, query)
      ensures r.Found? ==> AnswersRanked(r.ids, query)
    {
      hide PageLibPreprocessor.Ready, Answers, Weights, VectorsOf, Scores, Comparable, IdsOf, AnswersRanked, Ranks;
      hide ForAnswers, Roots, Counted;
      var vectors := CaculateRelativePagesVectors(query);
      NoneOrSome(vectors, pre.pages, query);
      var base := CaculateValue(query, pre.frequencies, |pre.pages|, pre.tools.maths);
      if vectors == [] {
        return NoAnswer;
      }
      Ranked(vectors, pre.indexed, pre.frequencies, |pre.pages|, pre.tools.maths, query);
      var order := GetPagesOrder(base, vectors, pre.tools.maths);
      if order == Failed {
        return Error;
      }
      RankedAnswers(order.ids, vectors, query);
      r := Found(order.ids);
    }

    /** The pages found have all terms of the question; they come by strictly descending cosine to it; and each page
        that has them all is found, unless one with the same cosine is. */
    ghost predicate AnswersRanked(ids: seq<nat>, query: Terms)
      reads pre
      requires Roots(pre.tools.maths)
    {
      && (forall id :: id in ids ==> Answers(pre.pages, id, query))
      && (forall i, j :: 0 <= i < j < |ids| ==> Greater(Cosine(query, ids[i]), Cosine(query, ids[j])))
      && (forall id :: Answers(pre.pages, id, query) ==> exists k :: k in ids && Cosine(query, k) == Cosine(query, id))
    }

    lemma RankedAnswers(ids: seq<nat>, vectors: DocsVector, query: Terms)
      requires Roots(pre.tools.maths)
      requires Ranks(ids, vectors, pre.indexed, pre.frequencies, |pre.pages|, pre.tools.maths, query)
      requires ForAnswers(vectors, pre.pages, query) && query != map[]
      ensures AnswersRanked(ids, query)
    {
      hide Answers, CosineTo;
      forall id | Answers(pre.pages, id, query) ensures exists k :: k in ids && Cosine(query, k) == Cosine(query, id) {
        var k :| 0 <= k < |vectors| && vectors[k].0 == id;
        assert Reached(ids, Cosine(query, vectors[k].0), pre.indexed, pre.frequencies, |pre.pages|, pre.tools.maths,
          query);
        var other :| other in ids && Cosine(query, other) == Cosine(query, id);
      }
    }

    // ----- the pages that are dropped -----

    ghost predicate AllAnswers(ids: seq<nat>, query: Terms)
      reads pre
    {
      forall id :: Answers(pre.pages, id, query) ==> id in ids
    }

    /** No two pages that answer have the same cosine. */
    ghost predicate NoTies(query: Terms)
      reads pre
      requires Roots(pre.tools.maths)
    {
      forall a, b :: Answers(pre.pages, a, query) && Answers(pre.pages, b, query) && a != b ==>
        Cosine(query, a) != Cosine(query, b)
    }

    ghost predicate NoIdfFor(query: Terms)
      reads pre
    {
      NoIdf(query, pre.frequencies, |pre.pages|, pre.tools.maths)
    }

    /** Nothing is dropped if and only if there are no ties. */
    lemma AllFoundIffNoTies(ids: seq<nat>, query: Terms)
      requires Roots(pre.tools.maths) && AnswersRanked(ids, query)
      ensures AllAnswers(ids, query) <==> NoTies(query)
    {
      hide Answers, CosineTo, WebPageQuery.Cosine;
      if AllAnswers(ids, query) {
        forall a, b | Answers(pre.pages, a, query) && Answers(pre.pages, b, query) && a != b
          ensures Cosine(query, a) != Cosine(query, b)
        {
          var i :| 0 <= i < |ids| && ids[i] == a;
          var j :| 0 <= j < |ids| && ids[j] == b;
          assert i < j ==> Greater(Cosine(query, ids[i]), Cosine(query, ids[j]));
          assert j < i ==> Greater(Cosine(query, ids[j]), Cosine(query, ids[i]));
        }
      }
    }

    /** All cosines are the same for a question of one word, and when all its words have an IDF of zero. */
    lemma SameCosine(query: Terms, a: nat, b: nat)
      requires pre.Ready(items) && Counted(query) && query != map[] && (|query| == 1 || NoIdfFor(query))
      requires Answers(pre.pages, a, query) && Answers(pre.pages, b, query)
      ensures Cosine(query, a) == Cosine(query, b)
    {
      ReadyPages(query);
      hide PageLibPreprocessor.Ready, Answers;
      if NoIdfFor(query) {
        CosinesOrdered(pre.indexed, pre.frequencies, |pre.pages|, pre.tools.maths, query, a);
        CosinesOrdered(pre.indexed, pre.frequencies, |pre.pages|, pre.tools.maths, query, b);
      } else {
        var t := OnlyKey(query);
        OneWordCosine(query, pre.indexed[a].terms, pre.frequencies, |pre.pages|, pre.tools.maths, t);
        OneWordCosine(query, pre.indexed[b].terms, pre.frequencies, |pre.pages|, pre.tools.maths, t);
      }
    }

    lemma OneIsFound(ids: seq<nat>, query: Terms)
      requires pre.Ready(items) && Counted(query) && query != map[]
      requires Roots(pre.tools.maths) && AnswersRanked(ids, query)
      requires exists id :: Answers(pre.pages, id, query)
      ensures |query| == 1 || NoIdfFor(query) ==> |ids| == 1
    {
      hide Answers, WebPageQuery.Cosine, PageLibPreprocessor.Ready, Roots, NoIdfFor, Counted;
      var id :| Answers(pre.pages, id, query);
      assert ids != [];
      if (|query| == 1 || NoIdfFor(query)) && |ids| > 1 {
        assert ids[0] in ids && ids[1] in ids;
        assert Greater(Cosine(query, ids[0]), Cosine(query, ids[1]));
        SameCosine(query, ids[0], ids[1]);
      }
    }
  }

  lemma OnlyKey(m: Terms) returns (t: string)
    requires |m| == 1
    ensures m.Keys == {t}
  {
    t :| t in m;
    assert |m.Keys - {t}| == 0;
  }

  lemma NoPageHas(pages: seq<Page>, query: Terms, t: string)
    requires t in query && forall id :: !Has(pages, id, t)
    ensures forall id :: !Answers(pages, id, query)
  {
    forall id ensures !Answers(pages, id, query) {
      assert !Has(pages, id, t);
    }
  }

  lemma OneWordTerms(stopWords: set<string>)
    requires "tea" !in stopWords
    ensures TermsOf(["tea"], stopWords) == map["tea" := 1]
  {
    assert multiset(["tea"])["tea"] == 1;
  }

  lemma BothStay(a: RawPage, b: RawPage, eq: (nat, nat) -> bool)
    requires !eq(a.simHash, b.simHash)
    ensures Deduped(Numbered([a, b]), eq) == [Page(a, 1, map[]), Page(b, 2, map[])]
  {
    var p, q := Page(a, 1, map[]), Page(b, 2, map[]);
    assert Numbered([a, b]) == [p, q];
    assert [p, q][1..] == [q] && [q][1..] == [];
    assert Unlike(p, [q], eq) == [q] && Unlike(q, [], eq) == [] && Deduped([], eq) == [];
    assert Deduped([q], eq) == [q];
  }

  lemma BothAnswer(pages: seq<Page>, a: RawPage, b: RawPage, tools: Tools)
    requires tools.segment("tea") == ["tea"] && "tea" !in tools.stopWords
    requires a.description == "tea" && b.description == "tea"
    requires pages == WithTerms([Page(a, 1, map[]), Page(b, 2, map[])], tools)
    ensures Answers(pages, 1, map["tea" := 1]) && Answers(pages, 2, map["tea" := 1])
  {
    OneWordTerms(tools.stopWords);
    assert pages[0] in pages && pages[1] in pages;
    assert pages[0].terms == map["tea" := 1] && pages[1].terms == map["tea" := 1];
  }

  /** Two different pages with the same word: the question for it is answered with one of them. */
  method OneOfTwoIsDropped(tools: Tools) returns (pre: PageLibPreprocessor, r: Answer)
    requires Roots(tools.maths) && tools.segment("tea") == ["tea"] && "tea" !in tools.stopWords && !tools.isEqual(1, 2)
    ensures Answers(pre.pages, 1, map["tea" := 1]) && Answers(pre.pages, 2, map["tea" := 1])
    ensures r.Found? && |r.ids| == 1
  {
    hide Answers, Deduped, WithTerms, Numbered, TermsOf, WebPageQuery.AnswersRanked, WebPageQuery.AllAnswers;
    hide WebPageQuery.NoTies;
    var a, b := RawPage("first", "tea", 1), RawPage("second", "tea", 2);
    pre := new PageLibPreprocessor(tools);
    pre.Do([a, b]);
    var web := new WebPageQuery(pre, [a, b]);
    BothStay(a, b, tools.isEqual);
    BothAnswer(pre.pages, a, b, tools);
    OneWordTerms(tools.stopWords);
    ghost var question: Terms := map["tea" := 1];
    assert web.Question("tea") == question && |question| == 1;
    ghost var pages := pre.pages;
    r := web.DoQuery("tea");
    assert Answers(pages, 1, question) && pre.pages == pages && web.pre == pre;
  }
}
