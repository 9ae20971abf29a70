/** PageLibPreprocessor: from raw pages to the inverted index that queries are answered from. */
module InvertedIndex {
  import opened Sums
  import opened Tally
  import opened TfIdf

  /** The libraries: jieba's segmentation and the stop words, the comparison of simhash values, the C maths. */
  datatype Tools = Tools(
    segment: string -> seq<string>,
    stopWords: set<string>,
    isEqual: (nat, nat) -> bool,
    maths: Maths)

  /** What the page library holds of a page, with the simhash value of its description. */
  datatype RawPage = RawPage(doc: string, description: string, simHash: nat)

  datatype Page = Page(raw: RawPage, id: nat, terms: Terms)

  // ----- terms -----

  /** The words that are no stop words, each with the number of its occurrences. */
  ghost function TermsOf(words: seq<string>, stopWords: set<string>): (r: Terms)
    ensures Counted(r)
  {
    map w | w in words && w !in stopWords :: multiset(words)[w]
  }

  lemma OneMoreWord(words: seq<string>, i: nat, stopWords: set<string>)
    requires i < |words|
    ensures var terms, w := TermsOf(words[..i], stopWords), words[i];
      TermsOf(words[..i + 1], stopWords) == if w in stopWords then terms else terms[w := Frequency(terms, w) + 1]
  {
    assert words[..i + 1] == words[..i] + [words[i]];
  }

  /** The sum of two term maps. */
  ghost function Plus(a: Terms, b: Terms): (r: Terms)
    ensures a == map[] ==> r == b
    ensures b == map[] ==> r == a
  {
    map w | w in a.Keys + b.Keys :: Frequency(a, w) + Frequency(b, w)
  }

  lemma PlusOne(a: Terms, b: Terms, w: string)
    ensures Plus(a, b[w := Frequency(b, w) + 1]) == Plus(a, b)[w := Frequency(Plus(a, b), w) + 1]
  {
  }

  /** SplitTool::Cut: it adds the words that are no stop words to the map it is given. */
  method CutText(text: string, given: Terms, tools: Tools) returns (terms: Terms)
    ensures terms == Plus(given, TermsOf(tools.segment(text), tools.stopWords))
  {
    hide TermsOf, Plus, Frequency;
    var words := tools.segment(text);
    terms := given;
    NoWords(words[..0], tools.stopWords);
    for i := 0 to |words|
      invariant terms == Plus(given, TermsOf(words[..i], tools.stopWords))
    {
      OneMoreWord(words, i, tools.stopWords);
      PlusOne(given, TermsOf(words[..i], tools.stopWords), words[i]);
      if words[i] !in tools.stopWords {
        terms := terms[words[i] := Frequency(terms, words[i]) + 1];
      }
    }
    assert words[..|words|] == words;
  }

  lemma NoWords(words: seq<string>, stopWords: set<string>)
    requires words == []
    ensures TermsOf(words, stopWords) == map[]
  {
  }

  // ----- the page list -----

  /** Pages numbered from 1. */
  ghost function Numbered(items: seq<RawPage>): seq<Page> {
    seq(|items|, i requires 0 <= i < |items| => Page(items[i], i + 1, map[]))
  }

  /** No two pages share an id, and ids ascend. */
  ghost predicate Ascending(pages: seq<Page>) { forall i, j :: 0 <= i < j < |pages| ==> pages[i].id < pages[j].id }

  /** The pages that differ from p. */
  ghost function Unlike(p: Page, pages: seq<Page>, eq: (nat, nat) -> bool): (r: seq<Page>)
    ensures |r| <= |pages|
  {
    if pages == [] then [] else
      (if eq(p.raw.simHash, pages[0].raw.simHash) then [] else [pages[0]]) + Unlike(p, pages[1..], eq)
  }

  /** Each page, unless it equals an earlier one that stays. */
  ghost function Deduped(pages: seq<Page>, eq: (nat, nat) -> bool): seq<Page>
    decreases |pages|
  {
    if pages == [] then [] else [pages[0]] + Deduped(Unlike(pages[0], pages[1..], eq), eq)
  }

  lemma UnlikeStep(p: Page, pages: seq<Page>, eq: (nat, nat) -> bool)
    requires pages != []
    ensures Unlike(p, pages, eq) ==
      (if eq(p.raw.simHash, pages[0].raw.simHash) then [] else [pages[0]]) + Unlike(p, pages[1..], eq)
  {
  }

  lemma {:induction false} UnlikeIs(p: Page, pages: seq<Page>, eq: (nat, nat) -> bool)
    ensures forall q :: q in Unlike(p, pages, eq) <==> q in pages && !eq(p.raw.simHash, q.raw.simHash)
    ensures Ascending(pages) ==> Ascending(Unlike(p, pages, eq))
  {
    if pages != [] {
      UnlikeIs(p, pages[1..], eq);
      var rest := Unlike(p, pages[1..], eq);
      if Ascending(pages) {
        assert Ascending(pages[1..]);
        forall q | q in rest ensures pages[0].id < q.id {
          var i :| 0 <= i < |pages[1..]| && pages[1..][i] == q;
          assert q == pages[i + 1];
        }
      }
    }
  }

  /** Each page that went equals an earlier one that stayed. */
  ghost predicate Covered(pages: seq<Page>, kept: seq<Page>, eq: (nat, nat) -> bool) {
    forall q :: q in pages && q !in kept ==> exists p :: p in kept && p.id < q.id && eq(p.raw.simHash, q.raw.simHash)
  }

  ghost predicate AllDiffer(pages: seq<Page>, eq: (nat, nat) -> bool) {
    forall i, j :: 0 <= i < j < |pages| ==> !eq(pages[i].raw.simHash, pages[j].raw.simHash)
  }

  ghost predicate Among(some: seq<Page>, pages: seq<Page>) { Ascending(some) && forall q :: q in some ==> q in pages }

  /** What is left are pages of the list, in their order; no two of them are equal, and each page that went equals an
      earlier one that stayed. */
  lemma {:induction false} DedupedIs(pages: seq<Page>, eq: (nat, nat) -> bool)
    requires Ascending(pages)
    ensures var r := Deduped(pages, eq); Among(r, pages) && AllDiffer(r, eq) && Covered(pages, r, eq)
    decreases |pages|
  {
    if pages != [] {
      var p, rest := pages[0], Unlike(pages[0], pages[1..], eq);
      assert Ascending(pages[1..]);
      UnlikeIs(p, pages[1..], eq);
      DedupedIs(rest, eq);
      HeadFirst(pages);
      hide Unlike;
      KeepsHead(pages, rest, Deduped(rest, eq), eq);
    }
  }

  lemma KeepsHead(pages: seq<Page>, rest: seq<Page>, kept: seq<Page>, eq: (nat, nat) -> bool)
    requires pages != [] && Among(kept, rest) && AllDiffer(kept, eq) && Covered(rest, kept, eq)
    requires forall q :: q in pages ==> q == pages[0] || (q in pages[1..] && pages[0].id < q.id)
    requires forall q :: q in pages[1..] ==> q in pages && pages[0].id < q.id
    requires forall q :: q in rest <==> q in pages[1..] && !eq(pages[0].raw.simHash, q.raw.simHash)
    ensures var r := [pages[0]] + kept; Among(r, pages) && AllDiffer(r, eq) && Covered(pages, r, eq)
  {
    var p, r := pages[0], [pages[0]] + kept;
    assert forall i :: 0 <= i < |kept| ==> kept[i] in kept;
    KeepsHeadCovered(pages, rest, kept, eq);
    hide Covered;
  }

  lemma KeepsHeadCovered(pages: seq<Page>, rest: seq<Page>, kept: seq<Page>, eq: (nat, nat) -> bool)
    requires pages != [] && Covered(rest, kept, eq)
    requires forall q :: q in pages ==> q == pages[0] || (q in pages[1..] && pages[0].id < q.id)
    requires forall q :: q in rest <==> q in pages[1..] && !eq(pages[0].raw.simHash, q.raw.simHash)
    ensures Covered(pages, [pages[0]] + kept, eq)
  {
    var r := [pages[0]] + kept;
    assert pages[0] in r && forall k :: k in kept ==> k in r;
    forall q | q in pages && q !in r ensures exists k :: k in r && k.id < q.id && eq(k.raw.simHash, q.raw.simHash) {
      if q in rest {
        var k :| k in kept && k.id < q.id && eq(k.raw.simHash, q.raw.simHash);
        assert k in r;
      }
    }
  }

  lemma HeadFirst(pages: seq<Page>)
    requires Ascending(pages) && pages != []
    ensures forall q :: q in pages ==> q == pages[0] || (q in pages[1..] && pages[0].id < q.id)
    ensures forall q :: q in pages[1..] ==> q in pages && pages[0].id < q.id
  {
    forall q | q in pages[1..] ensures q in pages && pages[0].id < q.id {
      var i :| 0 <= i < |pages[1..]| && pages[1..][i] == q;
      assert q == pages[i + 1];
    }
  }

  /** The pages with the terms of their descriptions. */
  ghost function WithTerms(pages: seq<Page>, tools: Tools): (r: seq<Page>)
    ensures |r| == |pages|
  {
    seq(|pages|, i requires 0 <= i < |pages| => pages[i].(terms := PageTerms(pages[i], tools)))
  }

  ghost function PageTerms(p: Page, tools: Tools): (r: Terms)
    ensures Counted(r)
  {
    TermsOf(tools.segment(p.raw.description), tools.stopWords)
  }

  // ----- the tables -----

  ghost function PageSet(pages: seq<Page>): set<Page> { set p | p in pages }

  /** Each term of a page, with the number of pages that contain it. */
  ghost predicate DocumentFrequencies(frequencies: Terms, pages: seq<Page>) {
    Tallies(frequencies, (p: Page, t: string) => t in p.terms, PageSet(pages))
  }

  ghost function Entries(table: map<string, set<(nat, Double)>>, t: string): set<(nat, Double)> {
    if t in table then table[t] else {}
  }

  /** The entries of t for the first n pages: the id of each page that contains it, with the weight t has there. */
  ghost function Listing(pages: seq<Page>, n: nat, frequencies: Terms, m: Maths, t: string): set<(nat, Double)>
    requires n <= |pages| && Roots(m)
  {
    set i | 0 <= i < n && t in pages[i].terms :: (pages[i].id, Weights(pages[i].terms, frequencies, |pages|, m)[t])
  }

  ghost predicate TableOf(table: map<string, set<(nat, Double)>>, pages: seq<Page>, frequencies: Terms, m: Maths)
    requires Roots(m)
  {
    forall t :: Entries(table, t) == Listing(pages, |pages|, frequencies, m, t)
  }

  ghost predicate IndexedBy(indexed: map<nat, Page>, pages: seq<Page>) {
    && (forall p :: p in pages ==> p.id in indexed && indexed[p.id] == p)
    && (forall id :: id in indexed ==> indexed[id] in pages && indexed[id].id == id)
  }

  lemma ListingStep(pages: seq<Page>, n: nat, frequencies: Terms, m: Maths, t: string)
    requires n < |pages| && Roots(m)
    ensures Listing(pages, n + 1, frequencies, m, t) == Listing(pages, n, frequencies, m, t) +
      if t in pages[n].terms then {(pages[n].id, Weights(pages[n].terms, frequencies, |pages|, m)[t])} else {}
  {
    hide Weights;
  }

  lemma Spliced(pages: seq<Page>, pos: nat)
    requires pos < |pages|
    ensures var r := pages[..pos] + pages[pos + 1..];
      r[..pos] == pages[..pos] && r[pos..] == pages[pos..][1..]
  {
  }

  lemma NothingLeft(p: Page, pages: seq<Page>, eq: (nat, nat) -> bool)
    requires pages == []
    ensures Unlike(p, pages, eq) == []
  {
  }

  /** The first n pages are done, the others are as they were. */
  ghost predicate Halfway(pages: seq<Page>, was: seq<Page>, done: seq<Page>, n: nat) {
    |pages| == |was| == |done| && forall j :: 0 <= j < |pages| ==> pages[j] == if j < n then done[j] else was[j]
  }

  lemma NoPages(frequencies: Terms, pages: seq<Page>)
    requires frequencies == map[]
    ensures DocumentFrequencies(frequencies, pages[..0])
  {
  }

  lemma OneMorePage(frequencies: Terms, frequencies': Terms, pages: seq<Page>, i: nat)
    requires i < |pages| && Ascending(pages) && DocumentFrequencies(frequencies, pages[..i])
    requires Bumped(frequencies, frequencies', pages[i].terms.Keys)
    ensures DocumentFrequencies(frequencies', pages[..i + 1])
  {
    hide Tallies, Bumped;
    assert pages[..i + 1] == pages[..i] + [pages[i]];
    assert PageSet(pages[..i + 1]) == PageSet(pages[..i]) + {pages[i]};
    assert pages[i] !in pages[..i];
    TallyStep(frequencies, frequencies', (p: Page, t: string) => t in p.terms, PageSet(pages[..i]), pages[i],
      pages[i].terms.Keys);
  }

  class PageLibPreprocessor {
    const tools: Tools
    var pages: seq<Page>
    var frequencies: Terms
    var table: map<string, set<(nat, Double)>>
    var indexed: map<nat, Page>

    constructor (tools: Tools)
      ensures this.tools == tools && pages == [] && frequencies == map[] && table == map[] && indexed == map[]
    {
      this.tools := tools;
      pages, frequencies, table, indexed := [], map[], map[], map[];
    }

    method CreatePageLibList(items: seq<RawPage>)
      requires pages == []
      modifies this`pages
      ensures pages == Numbered(items)
    {
      for i := 0 to |items|
        invariant pages == Numbered(items)[..i]
      {
        pages := pages + [Page(items[i], i + 1, map[])];
      }
    }

    method RmRedundantPages()
      modifies this`pages
      ensures pages == Deduped(old(pages), tools.isEqual)
    {
      var it := 0;
      while it != |pages|
        invariant it <= |pages|
        invariant Deduped(old(pages), tools.isEqual) == pages[..it] + Deduped(pages[it..], tools.isEqual)
        decreases |pages| - it
      {
        ghost var was := pages;
        EraseEqual(it);
        assert was[it..][0] == was[it] && was[it..][1..] == was[it + 1..];
        assert pages[it + 1..] == Unlike(was[it], was[it + 1..], tools.isEqual);
        assert pages[..it + 1] == was[..it] + [was[it]];
        it := it + 1;
      }
    }

    /** The inner loop of RmRedundantPages. */
    method EraseEqual(it: nat)
      requires it < |pages|
      modifies this`pages
      ensures pages == old(pages[..it + 1]) + Unlike(old(pages[it]), old(pages[it + 1..]), tools.isEqual)
    {
      hide Unlike;
      var pos := it + 1;
      ghost var goal := pages[..it + 1] + Unlike(pages[it], pages[it + 1..], tools.isEqual);
      while pos != |pages|
        invariant it < pos <= |pages| && pages[it] == old(pages[it])
        invariant pages[..pos] + Unlike(pages[it], pages[pos..], tools.isEqual) == goal
        decreases |pages| - pos
      {
        UnlikeStep(pages[it], pages[pos..], tools.isEqual);
        if tools.isEqual(pages[it].raw.simHash, pages[pos].raw.simHash) {
          Spliced(pages, pos);
          pages := pages[..pos] + pages[pos + 1..];
        } else {
          assert pages[..pos + 1] == pages[..pos] + [pages[pos]] && pages[pos..][1..] == pages[pos + 1..];
          pos := pos + 1;
        }
      }
      NothingLeft(pages[it], pages[pos..], tools.isEqual);
    }

    method Cut()
      requires frequencies == map[] && Ascending(pages) && forall p :: p in pages ==> p.terms == map[]
      modifies this`pages, this`frequencies
      ensures pages == WithTerms(old(pages), tools) && DocumentFrequencies(frequencies, pages) && Ascending(pages)
    {
      ghost var was, done := pages, WithTerms(pages, tools);
      hide DocumentFrequencies, PageTerms;
      NoPages(frequencies, done);
      for i := 0 to |pages|
        invariant Halfway(pages, was, done, i)
        invariant DocumentFrequencies(frequencies, done[..i])
      {
        CutPage(i, was, done);
      }
      assert done[..|pages|] == done;
    }

    /** A turn of the loop of Cut. */
    method CutPage(i: nat, ghost was: seq<Page>, ghost done: seq<Page>)
      requires i < |was| && Halfway(pages, was, done, i) && was[i].terms == map[] && done == WithTerms(was, tools)
      requires Ascending(done)
      requires DocumentFrequencies(frequencies, done[..i])
      modifies this`pages, this`frequencies
      ensures Halfway(pages, was, done, i + 1) && DocumentFrequencies(frequencies, done[..i + 1])
    {
      hide DocumentFrequencies, TermsOf;
      var terms := CutText(pages[i].raw.description, pages[i].terms, tools);
      assert done[i] == was[i].(terms := terms);
      pages := pages[i := pages[i].(terms := terms)];
      ghost var before := frequencies;
      frequencies := Bump(frequencies, terms.Keys);
      OneMorePage(before, frequencies, done, i);
    }

    method BuildInvertIndexTable()
      requires table == map[] && Roots(tools.maths)
      modifies this`table
      ensures TableOf(table, pages, frequencies, tools.maths)
    {
      for i := 0 to |pages|
        invariant forall t :: Entries(table, t) == Listing(pages, i, frequencies, tools.maths, t)
      {
        hide Weights;
        var weights := CaculateValue(pages[i].terms, frequencies, |pages|, tools.maths);
        AddPage(pages[i].id, weights);
        forall t { ListingStep(pages, i, frequencies, tools.maths, t); }
      }
    }

    /** The last loop of BuildInvertIndexTable. */
    method AddPage(id: nat, weights: Vector)
      modifies this`table
      ensures forall t :: Entries(table, t) == Entries(old(table), t) + if t in weights then {(id, weights[t])} else {}
    {
      var todo := weights.Keys;
      while todo != {}
        invariant todo <= weights.Keys
        invariant forall t ::
          Entries(table, t) == Entries(old(table), t) + if t in weights && t !in todo then {(id, weights[t])} else {}
      {
        var t := Any(todo);
        table := table[t := (if t in table then table[t] else {}) + {(id, weights[t])}];
        todo := todo - {t};
      }
    }

    method LoadIndexPageList()
      requires indexed == map[] && Ascending(pages)
      modifies this`indexed
      ensures IndexedBy(indexed, pages)
    {
      for i := 0 to |pages|
        invariant IndexedBy(indexed, pages[..i])
      {
        assert pages[..i + 1] == pages[..i] + [pages[i]];
        if pages[i].id !in indexed {
          indexed := indexed[pages[i].id := pages[i]];
        }
      }
      assert pages[..|pages|] == pages;
    }

    /** What queries are answered from: the pages that stay, with ascending ids, and tables that agree with them. */
    ghost predicate Ready(items: seq<RawPage>)
      reads this
    {
      && Roots(tools.maths)
      && pages == WithTerms(Deduped(Numbered(items), tools.isEqual), tools)
      && Ascending(pages)
      && DocumentFrequencies(frequencies, pages)
      && TableOf(table, pages, frequencies, tools.maths)
      && IndexedBy(indexed, pages)
    }

    method Do(items: seq<RawPage>)
      requires Roots(tools.maths) && pages == [] && frequencies == map[] && table == map[] && indexed == map[]
      modifies this
      ensures Ready(items)
    {
      hide Deduped;
      CreatePageLibList(items);
      DedupedIs(pages, tools.isEqual);
      RmRedundantPages();
      Cut();
      BuildInvertIndexTable();
      LoadIndexPageList();
    }
  }
}
