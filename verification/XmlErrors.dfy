/** Which error a parse ends with. */
module XmlErrors {
  import opened XmlText
  import opened XmlTree
  import opened XmlParser
  import opened Spelling
  import XmlRoundTrip
  import XmlBalance

  // ----- nothing, and markup that is not closed -----

  /** Only white space, with or without a byte order mark behind it. */
  lemma BlankIsEmpty(t: string, bom: bool)
    requires Spaces(t)
    ensures ParseDocument(t + if bom then "\U{EF}\U{BB}\U{BF}" else "") == Error(EmptyDocument)
  {
    var mark := if bom then "\U{EF}\U{BB}\U{BF}" else "";
    var s := t + mark;
    Classes(Ch(s, |t|));
    assert s[0..|t|] == t;
    XmlRoundTrip.AtHere(s, 0, t);
    hide Spaces;
    SpacesSkipped(s, 0, t);
  }

  /** A parse fails with the error of the first node. */
  lemma FirstFails(s: string, error: XMLError)
    requires s != "" && s[0] != NUL && !IsWhiteSpace(s[0]) && !HasBom(s, 0) && Identify(s, 0) == Simple(Fail(error))
    ensures ParseDocument(s) == Error(error)
  {
    hide Identify, HasBom, IsWhiteSpace;
    XmlRoundTrip.NothingToSkip(s, 0);
    assert Ch(s, 0) == s[0] && SkipBom(s, 0) == 0;
    hide SkipWhiteSpace;
    assert ParseOne(s, 0, 1) == Fail(error);
    hide ParseOne;
    assert ParseNodes(s, 0, 1, true, []) == Failed(error);
  }

  /** The markup of a node other than a tag or a text, up to its body. */
  predicate Opening(mark: string, tag: string, error: XMLError) {
    (mark, tag, error) in {("<!--", "-->", ParsingComment), ("<![CDATA[", "]]>", ParsingCData),
                           ("<?", "?>", ParsingDeclaration), ("<!", ">", ParsingUnknown)}
  }

  /** A comment, a CDATA section, a declaration or other markup without its end fails with its own error. */
  lemma UnclosedMarkup(mark: string, v: string, tag: string, error: XMLError)
    requires Opening(mark, tag, error) && Lacks(v, tag)
    requires mark == "<!" ==> !At(v, 0, "--") && !At(v, 0, "[CDATA[")
    ensures ParseDocument(mark + v) == Error(error)
  {
    hide Lacks, At;
    MarkIsFirst(mark, v);
    NotFound(mark, v, tag);
    if mark == "<!--" {
      CommentIs(v);
    } else if mark == "<![CDATA[" {
      CDataIs(v);
    } else if mark == "<?" {
      DeclarationIs(v);
    } else {
      UnknownIs(v);
    }
    hide Identify, HasBom;
    FirstFails(mark + v, error);
  }

  lemma MarkIsFirst(mark: string, v: string)
    requires mark != "" && mark[0] == '<'
    ensures (mark + v)[0] == '<' && !HasBom(mark + v, 0) && !IsWhiteSpace('<')
  {
  }

  lemma NotFound(mark: string, v: string, tag: string)
    requires Lacks(v, tag) && tag != "" && NoNul(tag)
    ensures FindEnd(mark + v, |mark|, tag) == None
  {
    var s, e := mark + v, FindEnd(mark + v, |mark|, tag);
    if e.Some? {
      Shifted(mark, v, e.value - |mark|, tag);
      assert At(v, e.value - |mark|, tag);
    }
  }

  lemma Shifted(mark: string, v: string, i: nat, tag: string)
    ensures At(mark + v, |mark| + i, tag) <==> At(v, i, tag)
  {
    var s, p := mark + v, |mark| + i;
    forall k | 0 <= k < |tag| ensures Ch(s, p + k) == tag[k] <==> Ch(v, i + k) == tag[k] {
      if i + k < |v| { assert s[p + k] == v[i + k]; }
    }
  }

  lemma CommentIs(v: string)
    requires FindEnd("<!--" + v, 4, "-->") == None
    ensures Identify("<!--" + v, 0) == Simple(Fail(ParsingComment))
  {
    XmlRoundTrip.NothingToSkip("<!--" + v, 0);
  }

  lemma CDataIs(v: string)
    requires FindEnd("<![CDATA[" + v, 9, "]]>") == None
    ensures Identify("<![CDATA[" + v, 0) == Simple(Fail(ParsingCData))
  {
    XmlRoundTrip.NothingToSkip("<![CDATA[" + v, 0);
    XmlRoundTrip.NotAt("<![CDATA[" + v, 0, "<!--", 2);
  }

  lemma DeclarationIs(v: string)
    requires FindEnd("<?" + v, 2, "?>") == None
    ensures Identify("<?" + v, 0) == Simple(Fail(ParsingDeclaration))
  {
    XmlRoundTrip.NothingToSkip("<?" + v, 0);
  }

  lemma UnknownIs(v: string)
    requires FindEnd("<!" + v, 2, ">") == None && !At(v, 0, "--") && !At(v, 0, "[CDATA[")
    ensures Identify("<!" + v, 0) == Simple(Fail(ParsingUnknown))
  {
    var s := "<!" + v;
    XmlRoundTrip.NothingToSkip(s, 0);
    Shifted("<!", v, 0, "--");
    Shifted("<!", v, 0, "[CDATA[");
    if At(s, 0, "<!--") {
      assert "<!--" == "<!" + "--";
      AtParts(s, 0, "<!", "--");
    }
    if At(s, 0, "<![CDATA[") {
      assert "<![CDATA[" == "<!" + "[CDATA[";
      AtParts(s, 0, "<!", "[CDATA[");
    }
  }

  /** A text that nothing follows. */
  lemma TextAtTheEnd(v: string)
    requires StartsLikeText(v) && v[0] != NUL && Lacks(v, "<")
    ensures ParseDocument(v) == Error(ParsingText)
  {
    NotFound("", v, "<");
    assert "" + v == v;
    XmlRoundTrip.NothingToSkip(v, 0);
    AtChar(v, 0, '<');
    FirstFails(v, ParsingText);
  }

  /** A text before a '<' that nothing follows. */
  lemma TextBeforeNothing(v: string)
    requires StartsLikeText(v) && Lacks(v, "<") && NUL !in v
    ensures ParseDocument(v + "<") == Error(Parsing)
  {
    var s := v + "<";
    XmlRoundTrip.NothingToSkip(s, 0);
    forall i | 0 <= i < |v| ensures v[i] != '<' { AtChar(v, i, '<'); }
    assert s[0] == v[0] && s[0] in v;
    XmlRoundTrip.AtHere(s, 0, v + "<");
    assert forall i :: 0 <= i < |v| ==> v[i] in v;
    XmlRoundTrip.FindEndExact(s, 0, v, "<");
    hide Lacks, At, FindEnd;
    FirstFails(s, Parsing);
  }

  /** A '<' before something that begins no name and no other markup. */
  lemma NotATag(c: char, rest: string)
    requires !StartsName(c) && c !in SPACES && c != '/' && c != '?' && c != '!'
    ensures ParseDocument("<" + ([c] + rest)) == Error(Parsing)
  {
    var s := "<" + ([c] + rest);
    assert s[1] == c && s[0] == '<';
    Classes(c);
    hide StartsName, IsNameStartChar;
    XmlRoundTrip.NothingToSkip(s, 1);
    NotMarkup(s);
    assert ReadTag(s, 1) == BadTag(Parsing);
    hide ReadTag, Identify, ParseNodes;
    XmlRoundTrip.NothingToSkip(s, 0);
    XmlBalance.ElementOfTag(s, 1, 1);
    XmlBalance.LoopAtTag(s, 0, 1, 1, true, []);
  }

  // ----- tags that do not balance -----

  /** A tag of a name alone. */
  function Bare(slash: bool, name: string): WrittenTag { WrittenTag("", slash, name, [], "", false) }

  lemma BareText(slash: bool, name: string)
    requires IsName(name)
    ensures TagText(Bare(slash, name)) == Slash(slash) + (name + ">") && ProperTag(Bare(slash, name))
  {
    assert "" + (Slash(slash) + (name + ">")) == Slash(slash) + (name + ">") && "" + ">" == ">";
    hide IsName;
  }

  /** The segment of the name of a tag at p. */
  function NameAt(p: nat, slash: bool, name: string): Segment {
    var n := p + |Slash(slash)|;
    Segment(n, n + |name|, NAME)
  }

  /** A bare tag behind a '<' at p - 1. */
  lemma BareTagIsRead(s: string, p: nat, slash: bool, name: string)
    requires IsName(name) && 0 < p && p + |Slash(slash)| + |name| + 1 <= |s|
    requires s[p - 1] == '<' && At(s, p, Slash(slash) + (name + ">"))
    ensures Identify(s, p - 1) == TagAt(p) && Raw(s, NameAt(p, slash, name)) == name
    ensures ReadTag(s, p) ==
      Tag(NameAt(p, slash, name), [], if slash then CLOSING else OPEN, p + |Slash(slash)| + |name| + 1)
  {
    hide At, IsName, ProperTag, TagText, ReadTag, Identify;
    var t := Bare(slash, name);
    BareText(slash, name);
    TagIsRead(s, p, t);
    NoMarkup(s, p - 1, t);
    AtParts(s, p, Slash(slash), name + ">");
    AtParts(s, p + |Slash(slash)|, name, ">");
    XmlRoundTrip.ReadsBack(s, p + |Slash(slash)|, name);
  }

  /** An element is accepted with the end tag of its own name, and refused with that of another name. */
  lemma EndTagDecides(m: string, n: string)
    requires IsName(m) && IsName(n)
    ensures var r := ParseDocument("<" + (m + ">") + ("</" + (n + ">")));
      if m == n then r.Success? && |r.nodes| == 1 else r == Error(MismatchedElement)
  {
    hide At, IsName, Identify, ReadTag, ParseDocument;
    var s, b := "<" + (m + ">") + ("</" + (n + ">")), |m| + 2;
    TwoInARow(s, m, n);
    BareTagIsRead(s, 1, false, m);
    BareTagIsRead(s, b + 1, true, n);
    TwoTags(s, b, NameAt(1, false, m), NameAt(b + 1, true, n));
  }

  lemma TwoInARow(s: string, m: string, n: string)
    requires s == "<" + (m + ">") + ("</" + (n + ">"))
    ensures var b := |m| + 2;
      && |s| == b + |n| + 3 && s[0] == '<' && s[b] == '<'
      && At(s, 1, Slash(false) + (m + ">")) && At(s, b + 1, Slash(true) + (n + ">"))
  {
    var b := |m| + 2;
    assert s[1..b] == m + ">" && s[b + 1..] == "/" + (n + ">");
    assert Slash(false) + (m + ">") == m + ">";
    XmlRoundTrip.AtHere(s, 1, m + ">");
    XmlRoundTrip.AtHere(s, b + 1, "/" + (n + ">"));
  }

  lemma TwoTags(s: string, b: nat, name: Segment, endName: Segment)
    requires b < |s| && Identify(s, 0) == TagAt(1) && ReadTag(s, 1) == Tag(name, [], OPEN, b) && s[0] == '<'
    requires Identify(s, b) == TagAt(b + 1) && ReadTag(s, b + 1) == Tag(endName, [], CLOSING, |s|) && s[b] == '<'
    ensures ParseDocument(s) == if SameName(s, endName, name) then Success([Element(name, [], [])])
      else Error(MismatchedElement)
  {
    hide Identify, ReadTag, ParseNodes, SameName;
    XmlRoundTrip.NothingToSkip(s, 0);
    XmlBalance.LoopAtTag(s, b, b + 1, 2, false, []);
    XmlBalance.ElementOfTag(s, b + 1, 2);
    assert ParseDeep(s, b, 1, false) == Closed([], endName, |s|);
    assert ParseElement(s, 1, 1) == One(Element(name, [], []), OPEN, Some(endName), |s|);
    XmlBalance.LoopAtTag(s, 0, 1, 1, true, []);
    EndOfInput(s, |s|, [Element(name, [], [])]);
    assert [] + [Element(name, [], [])] == [Element(name, [], [])];
  }

  /** An element that nothing follows, and a tag that is not ended. */
  lemma Unended(m: string)
    requires IsName(m)
    ensures ParseDocument("<" + (m + ">")) == Error(MismatchedElement)
    ensures ParseDocument("<" + m) == Error(ParsingElement)
  {
    AlmostElement("<" + (m + ">"), m);
    AlmostTag("<" + m, m);
  }

  lemma AlmostElement(s: string, m: string)
    requires IsName(m) && s == "<" + (m + ">")
    ensures ParseDocument(s) == Error(MismatchedElement)
  {
    assert s[1..] == m + ">" && "" + (m + ">") == m + ">";
    XmlRoundTrip.AtHere(s, 1, m + ">");
    BareTagIsRead(s, 1, false, m);
    hide Identify, ReadTag, ParseNodes;
    XmlRoundTrip.NothingToSkip(s, 0);
    XmlBalance.ElementOfTag(s, 1, 1);
    XmlBalance.LoopAtTag(s, 0, 1, 1, true, []);
  }

  lemma AlmostTag(s: string, m: string)
    requires IsName(m) && s == "<" + m
    ensures ParseDocument(s) == Error(ParsingElement)
  {
    hide Identify, ReadTag, ParseNodes;
    NameThenNothing(s, m);
    XmlRoundTrip.NothingToSkip(s, 0);
    XmlBalance.ElementOfTag(s, 1, 1);
    XmlBalance.LoopAtTag(s, 0, 1, 1, true, []);
  }

  lemma NameThenNothing(s: string, m: string)
    requires IsName(m) && s == "<" + m
    ensures Identify(s, 0) == TagAt(1) && ReadTag(s, 1) == BadTag(ParsingElement)
  {
    assert s[1..] == m && s[1] == m[0];
    XmlRoundTrip.AtHere(s, 1, m);
    Classes(NUL);
    NameSpelled(s, 1, m);
    assert m[0] in m;
    Classes(m[0]);
    hide At, NameEnd, InName, StartsName;
    SpacesEndNames(m[0]);
    SpacesEndNames('/');
    NotMarkup(s);
    XmlRoundTrip.NothingToSkip(s, 1);
  }

  lemma NotMarkup(s: string)
    requires |s| > 1 && s[0] == '<' && s[1] != '?' && s[1] != '!'
    ensures Identify(s, 0) == TagAt(1)
  {
    XmlRoundTrip.NothingToSkip(s, 0);
    XmlRoundTrip.NotAt(s, 0, "<!--", 1);
    XmlRoundTrip.NotAt(s, 0, "<![CDATA[", 1);
  }

  // ----- depth -----

  /** Start tags one inside the other. */
  function Opens(m: string, n: nat): string { if n == 0 then "" else "<" + (m + ">") + Opens(m, n - 1) }

  /** 99 elements one inside the other are too many, whatever comes behind their start tags. */
  lemma TooDeep(m: string, n: nat, rest: string)
    requires IsName(m) && n >= 99 && rest != "" && rest[0] != NUL
    ensures ParseDocument(Opens(m, n) + rest) == Error(ElementDepthExceeded)
  {
    var s := Opens(m, n) + rest;
    assert s[0..|Opens(m, n)|] == Opens(m, n) && s[|Opens(m, n)|] == rest[0];
    XmlRoundTrip.AtHere(s, 0, Opens(m, n));
    Opened(s, 0, m, n);
    hide Opens, At, IsName, ParseNodes, HasBom;
    NestedTooDeep(s, 0, m, n, 1, true);
    XmlRoundTrip.NothingToSkip(s, 0);
    BracketFirst(s);
  }

  lemma BracketFirst(s: string)
    requires s != "" && s[0] == '<'
    ensures SkipWhiteSpace(s, 0) == 0 && !HasBom(s, 0) && SkipBom(s, 0) == 0 && Ch(s, 0) == '<'
  {
    XmlRoundTrip.NothingToSkip(s, 0);
  }

  lemma Opened(s: string, p: nat, m: string, n: nat)
    requires n > 0 && At(s, p, Opens(m, n)) && p + |Opens(m, n)| <= |s|
    ensures |Opens(m, n)| == |m| + 2 + |Opens(m, n - 1)| && s[p] == '<'
    ensures At(s, p + 1, m + ">") && At(s, p + |m| + 2, Opens(m, n - 1))
  {
    hide At;
    AtParts(s, p, "<" + (m + ">"), Opens(m, n - 1));
    AtParts(s, p, "<", m + ">");
    AtHead(s, p, "<");
  }

  lemma {:induction false} NestedTooDeep(s: string, p: nat, m: string, n: nat, depth: nat, top: bool)
    requires IsName(m) && At(s, p, Opens(m, n)) && p + |Opens(m, n)| < |s| && s[p + |Opens(m, n)|] != NUL
    requires n > 0 && depth < 100 <= depth + n
    ensures ParseNodes(s, p, depth, top, []) == Failed(ElementDepthExceeded)
    decreases n
  {
    hide Opens, At, IsName, ParseNodes, Identify, ReadTag;
    Opened(s, p, m, n);
    assert "" + (m + ">") == m + ">";
    BareTagIsRead(s, p + 1, false, m);
    var q := p + |m| + 2;
    if n > 1 { Opened(s, q, m, n - 1); } else { assert |Opens(m, 0)| == 0 by { NoOpens(m); } }
    assert Ch(s, q) != NUL;
    if depth < 99 {
      NestedTooDeep(s, q, m, n - 1, depth + 1, false);
    }
    assert ParseDeep(s, q, depth, false) == Failed(ElementDepthExceeded);
    hide ParseDeep;
    assert ParseElement(s, p + 1, depth) == Fail(ElementDepthExceeded);
    XmlBalance.LoopAtTag(s, p, p + 1, depth, top, []);
  }

  lemma NoOpens(m: string)
    ensures Opens(m, 0) == ""
  {
  }
}
