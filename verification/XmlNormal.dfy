/** What a parse can yield, and which documents come back from print and parse as they were. */
module XmlNormal {
  import opened XmlText
  import opened Decoding
  import opened XmlTree
  import opened XmlParser
  import opened XmlRoundTrip

  // ----- values -----

  predicate NoNewline(lit: string) { CR !in lit && LF !in lit }

  /** A mark without newlines that folded text begins with was there before. */
  lemma {:induction false} FoldedAt(v: string, lit: string)
    requires NoNewline(lit) && NoNul(lit) && At(Folded(v), 0, lit)
    ensures At(v, 0, lit)
    decreases |lit|
  {
    if lit != "" {
      AtHead(Folded(v), 0, lit);
      assert v != "" && Folded(v) == [v[0]] + Folded(v[1..]);
      AtTail(Folded(v), lit);
      FoldedAt(v[1..], lit[1..]);
      AtFront(v, lit);
    }
  }

  lemma AtTail(v: string, lit: string)
    requires v != "" && lit != "" && At(v, 0, lit)
    ensures At(v[1..], 0, lit[1..])
  {
    forall i | 0 <= i < |lit[1..]| ensures Ch(v[1..], 0 + i) == lit[1..][i] {
      assert Ch(v, 0 + (i + 1)) == lit[i + 1];
    }
  }

  lemma AtFront(v: string, lit: string)
    requires v != "" && lit != "" && v[0] == lit[0] && At(v[1..], 0, lit[1..])
    ensures At(v, 0, lit)
  {
    forall i | 0 <= i < |lit| ensures Ch(v, 0 + i) == lit[i] {
      if i > 0 { assert Ch(v[1..], 0 + (i - 1)) == lit[1..][i - 1]; }
    }
  }

  lemma AtLater(v: string, k: nat, i: nat, lit: string)
    requires k <= |v|
    ensures At(v[k..], i, lit) <==> At(v, k + i, lit)
  {
    if At(v[k..], i, lit) {
      forall j | 0 <= j < |lit| ensures Ch(v, k + i + j) == lit[j] { assert Ch(v[k..], i + j) == lit[j]; }
    }
    if At(v, k + i, lit) {
      forall j | 0 <= j < |lit| ensures Ch(v[k..], i + j) == lit[j] { assert Ch(v, k + i + j) == lit[j]; }
    }
  }

  lemma LacksLater(v: string, k: nat, lit: string)
    requires k <= |v| && Lacks(v, lit)
    ensures Lacks(v[k..], lit)
  {
    forall i | 0 <= i < |v[k..]| ensures !At(v[k..], i, lit) { AtLater(v, k, i, lit); }
  }

  /** Folding newlines brings no mark about. */
  lemma {:induction false} FoldedLacks(v: string, lit: string)
    requires NoNewline(lit) && NoNul(lit) && lit != "" && Lacks(v, lit)
    ensures Lacks(Folded(v), lit)
    decreases |v|
  {
    if v != "" {
      var k := if Pairs(v) then 2 else 1;
      LacksLater(v, k, lit);
      FoldedLacks(v[k..], lit);
      var r := Folded(v);
      assert r[1..] == Folded(v[k..]);
      forall i | 0 <= i < |r| ensures !At(r, i, lit) {
        if i == 0 {
          if At(r, 0, lit) { FoldedAt(v, lit); }
        } else {
          AtLater(r, 1, i - 1, lit);
        }
      }
    }
  }

  lemma ViewNoNul(s: string, seg: Segment)
    ensures NoNul(View(s, seg))
  {
    if seg.start <= seg.end <= |s| { CStrHasNoNul(Flush(Raw(s, seg), 0, 0, seg.mode), 0); }
  }

  /** The value of a leaf, which runs up to its end mark. */
  lemma LeafView(s: string, start: nat, e: nat, endTag: string)
    requires start <= |s| && endTag != "" && NoNul(endTag) && NoNewline(endTag) && FindEnd(s, start, endTag) == Some(e)
    ensures var seg := Segment(start, e, VERBATIM);
      Lacks(Raw(s, seg), endTag) && View(s, seg) == Folded(Raw(s, seg)) && Lacks(View(s, seg), endTag)
  {
    hide Flush, CStr, Folded, PlainValue;
    var seg := Segment(start, e, VERBATIM);
    var raw := Raw(s, seg);
    assert NoNul(raw);
    VerbatimRoundTrip(raw, true);
    FoldedIsRead(raw);
    RawLacks(s, start, e, endTag);
    FoldedLacks(raw, endTag);
  }

  lemma RawLacks(s: string, start: nat, e: nat, endTag: string)
    requires start <= e <= |s| && NoNul(endTag) && endTag != ""
    requires forall i :: start <= i < e ==> !At(s, i, endTag)
    ensures Lacks(s[start..e], endTag)
  {
    var raw := s[start..e];
    forall i | 0 <= i < |raw| ensures !At(raw, i, endTag) {
      if At(raw, i, endTag) { AtWhole(s, start, e, i, endTag); }
    }
  }

  lemma AtWhole(s: string, start: nat, e: nat, i: nat, lit: string)
    requires start <= e <= |s| && NoNul(lit) && i <= e - start && At(s[start..e], i, lit)
    ensures At(s, start + i, lit)
  {
    AtFits(s[start..e], i, lit);
    forall j | 0 <= j < |lit| ensures Ch(s, start + i + j) == lit[j] { assert Ch(s[start..e], i + j) == lit[j]; }
  }

  /** Unknown markup is what is neither a comment nor CDATA. */
  lemma UnknownView(s: string, q: nat, e: nat, mark: string, tail: string)
    requires q + 2 <= e <= |s| && Ch(s, q) == '<' && Ch(s, q + 1) == '!' && mark == "<!" + tail && !At(s, q, mark)
    requires NoNul(tail) && NoNewline(tail)
    ensures !At(Folded(s[q + 2..e]), 0, tail)
  {
    if At(Folded(s[q + 2..e]), 0, tail) {
      FoldedAt(s[q + 2..e], tail);
      AtWhole(s, q + 2, e, 0, tail);
      AtJoined(s, q, "<!", tail);
    }
  }

  // ----- tags -----

  lemma NameView(s: string, n: nat)
    requires n < |s| && IsNameStartChar(s[n])
    ensures var seg := Segment(n, NameEnd(s, n), NAME);
      seg.end <= |s| && ValidName(Raw(s, seg)) && View(s, seg) == Raw(s, seg)
  {
    hide Flush, CStr;
    var raw := s[n..NameEnd(s, n)];
    assert NameEnd(s, n) > n;
    assert NUL !in raw;
    VerbatimRoundTrip(raw, false);
  }

  /** The attributes read so far have valid names, no two the same. */
  predicate GoodAttributes(s: string, list: seq<Attribute<Segment>>) {
    && (forall i :: 0 <= i < |list| ==>
          && list[i].name.start <= list[i].name.end <= |s| && ValidName(Raw(s, list[i].name))
          && View(s, list[i].name) == Raw(s, list[i].name))
    && (forall i, j :: 0 <= i < j < |list| ==> View(s, list[i].name) != View(s, list[j].name))
  }

  lemma {:induction false} AttributesAreGood(s: string, p: nat, list: seq<Attribute<Segment>>)
    requires p <= |s| && GoodAttributes(s, list) && ParseAttributes(s, p, list).Attributes?
    ensures GoodAttributes(s, ParseAttributes(s, p, list).list)
    decreases |s| - p
  {
    hide View, GoodAttributes, ParseAttribute, SkipWhiteSpace;
    var q := SkipWhiteSpace(s, p);
    if IsNameStartChar(s[q]) {
      var r := ParseAttribute(s, q);
      OneMoreGood(s, q, list);
      AttributesAreGood(s, r.p, list + [r.attribute]);
    }
  }

  lemma OneMoreGood(s: string, q: nat, list: seq<Attribute<Segment>>)
    requires q < |s| && IsNameStartChar(s[q]) && GoodAttributes(s, list) && ParseAttribute(s, q).OneAttribute?
    requires !NameTaken(s, list, ParseAttribute(s, q).attribute.name)
    ensures GoodAttributes(s, list + [ParseAttribute(s, q).attribute])
  {
    hide View, NameEnd, FindEnd, SkipWhiteSpace, ValidName;
    var a := ParseAttribute(s, q).attribute;
    NameView(s, q);
    assert a.name == Segment(q, NameEnd(s, q), NAME);
  }

  lemma {:induction false} ViewAttributesAt(s: string, list: seq<Attribute<Segment>>)
    ensures |ViewAttributes(s, list)| == |list|
    ensures forall i :: 0 <= i < |list| ==>
      ViewAttributes(s, list)[i] == Attribute(View(s, list[i].name), View(s, list[i].value))
  {
    hide View;
    if list != [] { ViewAttributesAt(s, list[1..]); }
  }

  lemma GoodAreValid(s: string, list: seq<Attribute<Segment>>)
    requires GoodAttributes(s, list)
    ensures ValidAttributes(ViewAttributes(s, list))
  {
    hide View, ValidName, NoNul, ViewAttributes;
    ViewAttributesAt(s, list);
    forall i | 0 <= i < |list| ensures NoNul(View(s, list[i].value)) { ViewNoNul(s, list[i].value); }
  }

  lemma TagIsValid(s: string, p: nat)
    requires p <= |s| && ReadTag(s, p).Tag?
    ensures var tag := ReadTag(s, p); ValidName(View(s, tag.name)) && ValidAttributes(ViewAttributes(s, tag.list))
  {
    hide View, ValidName, ParseAttributes, SkipWhiteSpace, NameEnd, ValidAttributes;
    var q := SkipWhiteSpace(s, p);
    var n := if Ch(s, q) == '/' then q + 1 else q;
    NameView(s, n);
    AttributesAreGood(s, NameEnd(s, n), []);
    GoodAreValid(s, ReadTag(s, p).list);
  }

  // ----- nodes -----

  /** A declaration, or a node as ValidNode asks. */
  predicate Good(n: Node<string>, room: int) {
    if n.Declaration? then NoNul(n.value) && Lacks(n.value, "?>") else ValidNode(n, room)
  }

  function EndTagOf(kind: LeafKind): (r: string)
    ensures NoNul(r) && r != "" && NoNewline(r)
  {
    match kind
    case CommentLeaf => "-->"
    case CDataLeaf => "]]>"
    case DeclarationLeaf => "?>"
    case UnknownLeaf => ">"
  }

  lemma LeafIsGood(s: string, start: nat, error: XMLError, kind: LeafKind, room: int)
    requires start <= |s| && Leaf(s, start, EndTagOf(kind), error, kind).One?
    ensures var n := Leaf(s, start, EndTagOf(kind), error, kind).node;
      !PlainText(ViewNode(s, n)) && (kind.UnknownLeaf? || Good(ViewNode(s, n), room))
  {
    hide View, FindEnd, Lacks, NoNul;
    var e := FindEnd(s, start, EndTagOf(kind)).value;
    LeafView(s, start, e, EndTagOf(kind));
    ViewNoNul(s, Segment(start, e, VERBATIM));
  }

  lemma UnknownIsGood(s: string, q: nat, error: XMLError, room: int)
    requires q + 2 <= |s| && Leaf(s, q + 2, ">", error, UnknownLeaf).One?
    requires Ch(s, q) == '<' && Ch(s, q + 1) == '!' && !At(s, q, "<!--") && !At(s, q, "<![CDATA[")
    ensures Good(ViewNode(s, Leaf(s, q + 2, ">", error, UnknownLeaf).node), room)
  {
    hide View, FindEnd, Lacks, NoNul, At, Folded;
    var e := FindEnd(s, q + 2, EndTagOf(UnknownLeaf)).value;
    LeafView(s, q + 2, e, EndTagOf(UnknownLeaf));
    ViewNoNul(s, Segment(q + 2, e, VERBATIM));
    NoNulMarks();
    UnknownView(s, q, e, "<!--", "--");
    UnknownView(s, q, e, "<![CDATA[", "[CDATA[");
  }

  lemma NoNulMarks()
    ensures NoNul("--") && NoNul("[CDATA[")
  {
  }

  lemma TextIsGood(s: string, p: nat, room: int)
    requires p <= |s| && Identify(s, p).Simple? && Identify(s, p).one.One? && Ch(s, SkipWhiteSpace(s, p)) != '<'
    ensures Good(ViewNode(s, Identify(s, p).one.node), room)
    ensures PlainText(ViewNode(s, Identify(s, p).one.node)) ==> Ch(s, Identify(s, p).one.p) == '<' && Ch(s, p) != '<'
  {
    hide View, SkipWhiteSpace;
    var e := FindEnd(s, p, "<").value;
    ViewNoNul(s, Segment(p, e, ESCAPED));
    AtChar(s, e, '<');
    AtChar(s, p, '<');
    if Ch(s, p) == '<' { NotWhite(s, p); }
  }

  lemma NotWhite(s: string, p: nat)
    requires p <= |s| && Ch(s, p) == '<'
    ensures SkipWhiteSpace(s, p) == p
  {
  }

  /** A node that is no element is as ValidNode asks; and a text begins with no '<' and ends in front of one. */
  lemma SimpleIsGood(s: string, p: nat, room: int)
    requires p <= |s| && Identify(s, p).Simple? && Identify(s, p).one.One?
    ensures Good(ViewNode(s, Identify(s, p).one.node), room)
    ensures PlainText(ViewNode(s, Identify(s, p).one.node)) ==> Ch(s, Identify(s, p).one.p) == '<' && Ch(s, p) != '<'
  {
    hide View, SkipWhiteSpace, Leaf, Good, At, PlainText;
    var q := SkipWhiteSpace(s, p);
    if Ch(s, q) != '<' {
      TextIsGood(s, p, room);
    } else if Ch(s, q + 1) == '?' {
      LeafIsGood(s, q + 2, ParsingDeclaration, DeclarationLeaf, room);
    } else if At(s, q, "<!--") {
      LeafIsGood(s, q + 4, ParsingComment, CommentLeaf, room);
    } else if At(s, q, "<![CDATA[") {
      LeafIsGood(s, q + 9, ParsingCData, CDataLeaf, room);
    } else {
      LeafIsGood(s, q + 2, ParsingUnknown, UnknownLeaf, room);
      UnknownIsGood(s, q, ParsingUnknown, room);
    }
  }

  /** The children read so far: of a document, or of an element that may hold `room` more levels. A text is followed by
      markup. */
  predicate GoodSoFar(s: string, p: nat, ns: seq<Node<string>>, room: int, top: bool) {
    && (if top then room == 98 && WellFormed(ns) else ValidNodes(ns, room))
    && (ns != [] && PlainText(ns[|ns| - 1]) ==> Ch(s, p) == '<')
  }

  lemma {:induction false} ViewNodesAppend(s: string, ns: seq<Node<Segment>>, n: Node<Segment>)
    ensures ViewNodes(s, ns + [n]) == ViewNodes(s, ns) + [ViewNode(s, n)]
    ensures |ViewNodes(s, ns)| == |ns|
  {
    hide ViewNode;
    if ns != [] {
      assert (ns + [n])[1..] == ns[1..] + [n];
      ViewNodesAppend(s, ns[1..], n);
    }
  }

  lemma {:induction false} ValidAppend(ns: seq<Node<string>>, n: Node<string>, room: int)
    requires ValidNodes(ns, room) && ValidNode(n, room) && !(ns != [] && PlainText(ns[|ns| - 1]) && PlainText(n))
    ensures ValidNodes(ns + [n], room)
  {
    hide ValidNode, PlainText;
    if ns != [] {
      assert (ns + [n])[1..] == ns[1..] + [n];
      ValidAppend(ns[1..], n, room);
    } else {
      assert ([] + [n])[1..] == [];
    }
  }

  lemma {:induction false} WellFormedAppend(ns: seq<Node<string>>, n: Node<string>)
    requires WellFormed(ns) && Good(n, 98) && !(ns != [] && PlainText(ns[|ns| - 1]) && PlainText(n))
    requires n.Declaration? ==> forall i :: 0 <= i < |ns| ==> ns[i].Declaration?
    ensures WellFormed(ns + [n])
  {
    hide ValidNode;
    if ns != [] && ns[0].Declaration? {
      assert (ns + [n])[1..] == ns[1..] + [n];
      WellFormedAppend(ns[1..], n);
    } else if ns != [] {
      ValidAppend(ns, n, 98);
    } else {
      assert ([] + [n])[1..] == [];
      if !n.Declaration? { ValidAppend([], n, 98); }
    }
  }

  /** The first and the last child are declarations: then all are. */
  lemma {:induction false} AllDeclarations(ns: seq<Node<string>>)
    requires WellFormed(ns) && ns != [] && ns[|ns| - 1].Declaration?
    ensures forall i :: 0 <= i < |ns| ==> ns[i].Declaration?
  {
    if ns[0].Declaration? {
      if |ns| > 1 { AllDeclarations(ns[1..]); }
    } else {
      NoDeclarations(ns, 98);
    }
  }

  lemma {:induction false} NoDeclarations(ns: seq<Node<string>>, room: int)
    requires ValidNodes(ns, room)
    ensures forall i :: 0 <= i < |ns| ==> !ns[i].Declaration?
  {
    if ns != [] { NoDeclarations(ns[1..], room); }
  }

  lemma KindOfView(s: string, ns: seq<Node<Segment>>, i: nat)
    requires i < |ns|
    ensures |ViewNodes(s, ns)| == |ns| && ViewNodes(s, ns)[i] == ViewNode(s, ns[i])
  {
    hide ViewNode;
    if i > 0 {
      KindOfView(s, ns[1..], i - 1);
    } else {
      ViewNodesAppend(s, ns, ns[0]);
    }
  }

  lemma OneMoreNode(s: string, p: nat, depth: nat, top: bool, done: seq<Node<Segment>>)
    requires p <= |s| && 1 <= depth < MAX_ELEMENT_DEPTH && ParseOne(s, p, depth).One?
    requires GoodSoFar(s, p, ViewNodes(s, done), 99 - depth, top)
    requires ParseOne(s, p, depth).node.Declaration? ==> top && OnlyDeclarations(done)
    requires var n := ViewNode(s, ParseOne(s, p, depth).node);
      Good(n, 99 - depth) && (PlainText(n) ==> Ch(s, ParseOne(s, p, depth).p) == '<' && Ch(s, p) != '<')
    ensures var r := ParseOne(s, p, depth); GoodSoFar(s, r.p, ViewNodes(s, done + [r.node]), 99 - depth, top)
  {
    hide ParseOne, ViewNodes, View, WellFormed, ValidNodes, ValidNode;
    var node := ParseOne(s, p, depth).node;
    var n, ns := ViewNode(s, node), ViewNodes(s, done);
    ViewNodesAppend(s, done, node);
    if done != [] { KindOfView(s, done, |done| - 1); }
    if top {
      if n.Declaration? && done != [] { AllDeclarations(ns); }
      WellFormedAppend(ns, n);
    } else {
      ValidAppend(ns, n, 99 - depth);
    }
  }

  lemma {:induction false} OneIsGood(s: string, p: nat, depth: nat)
    requires p <= |s| && 1 <= depth < MAX_ELEMENT_DEPTH && ParseOne(s, p, depth).One?
    ensures var r := ParseOne(s, p, depth); var n := ViewNode(s, r.node);
      Good(n, 99 - depth) && (PlainText(n) ==> Ch(s, r.p) == '<' && Ch(s, p) != '<')
    decreases |s| - p, 0
  {
    hide Identify, ParseElement, Good;
    if Identify(s, p).Simple? {
      SimpleIsGood(s, p, 99 - depth);
    } else {
      ElementIsGood(s, Identify(s, p).p, depth);
    }
  }

  lemma {:induction false} ElementIsGood(s: string, p: nat, depth: nat)
    requires p <= |s| && 1 <= depth < MAX_ELEMENT_DEPTH && ParseElement(s, p, depth).One?
    ensures Good(ViewNode(s, ParseElement(s, p, depth).node), 99 - depth)
    decreases |s| - p, 1
  {
    hide ReadTag, ParseNodes, ViewAttributes, View, ViewNodes, ValidName, ValidAttributes, GoodSoFar;
    var tag := ReadTag(s, p);
    TagIsValid(s, p);
    NoChildren(s, 98 - depth);
    if Ch(s, tag.p) != NUL && tag.closing == OPEN {
      NothingSoFar(s, tag.p, 98 - depth, false);
      LoopIsGood(s, tag.p, depth + 1, false, []);
    }
  }

  lemma NoChildren(s: string, room: int)
    ensures ViewNodes(s, []) == [] && ValidNodes([], room)
  {
  }

  lemma NothingSoFar(s: string, p: nat, room: int, top: bool)
    requires top ==> room == 98
    ensures GoodSoFar(s, p, ViewNodes(s, []), room, top)
  {
  }

  /** The loop keeps what it has read as ValidNodes and WellFormed ask. */
  lemma {:induction false} LoopIsGood(s: string, p: nat, depth: nat, top: bool, done: seq<Node<Segment>>)
    requires p <= |s| && 1 <= depth < MAX_ELEMENT_DEPTH && GoodSoFar(s, p, ViewNodes(s, done), 99 - depth, top)
    ensures var r := ParseNodes(s, p, depth, top, done);
      !r.Failed? ==> if top then WellFormed(ViewNodes(s, r.nodes)) else ValidNodes(ViewNodes(s, r.nodes), 99 - depth)
    decreases |s| - p, 2
  {
    hide ParseOne, ViewNodes, ViewNode, WellFormed, ValidNodes, Good, SameName;
    if Ch(s, p) != NUL {
      var one := ParseOne(s, p, depth);
      if one.One? && (one.node.Declaration? ==> top && OnlyDeclarations(done)) {
        OneIsGood(s, p, depth);
        OneMoreNode(s, p, depth, top, done);
        LoopIsGood(s, one.p, depth, top, done + [one.node]);
      }
    }
  }

  /** Every parse that succeeds yields a well-formed document. */
  lemma ParsedIsWellFormed(s: string)
    requires ParseDocument(s).Success?
    ensures WellFormed(ViewNodes(s, ParseDocument(s).nodes))
  {
    hide ParseNodes, ViewNodes, WellFormed, GoodSoFar, SkipBom, SkipWhiteSpace;
    var p := SkipBom(s, SkipWhiteSpace(s, 0));
    NothingSoFar(s, p, 98, true);
    LoopIsGood(s, p, 1, true, []);
  }

  // ----- normal forms -----

  lemma {:induction false} FoldedShorter(v: string)
    ensures |Folded(v)| <= |v| && (Folded(v) == "" <==> v == "")
    decreases |v|
  {
    if v != "" { FoldedShorter(if Pairs(v) then v[2..] else v[1..]); }
  }

  lemma {:induction false} NormalAttributesSame(list: seq<Attribute<string>>)
    ensures NormalAttributes(list) == list <==> forall a :: a in list ==> CR !in a.value
  {
    hide Folded;
    if list != [] {
      FoldedSame(list[0].value);
      NormalAttributesSame(list[1..]);
      assert list == [list[0]] + list[1..];
      assert NormalAttributes(list)[1..] == NormalAttributes(list[1..]);
    }
  }

  /** The nodes that are their own normal form. */
  lemma {:induction false} NormalSame(n: Node<string>)
    ensures NormalNode(n) == n <==> IsNormal(n)
    decreases n, 1
  {
    hide Folded;
    match n
    case Element(_, attributes, children) =>
      NormalAttributesSame(attributes);
      NormalsSame(children);
    case Text(v, _) => FoldedSame(v);
    case Comment(v) => FoldedSame(v);
    case Declaration(v) => FoldedSame(v);
    case Unknown(v) => FoldedSame(v);
  }

  lemma {:induction false} NormalsSame(ns: seq<Node<string>>)
    ensures NormalNodes(ns) == ns <==> AreNormal(ns)
    decreases ns, 0
  {
    hide NormalNode, IsNormal, Blank;
    if ns != [] {
      NormalSame(ns[0]);
      NormalsSame(ns[1..]);
      assert ns == [ns[0]] + ns[1..];
      if !Blank(ns[0]) { assert NormalNodes(ns)[1..] == NormalNodes(ns[1..]); }
    }
  }

  // ----- the documents that come back -----

  /** The document, with its byte order mark or without one, is what printing it and parsing the output gives. */
  predicate Survives(bom: bool, doc: seq<Node<string>>) {
    var s := PrintDocument(bom, doc) + [NUL];
    ParseDocument(s).Success? && ViewNodes(s, ParseDocument(s).nodes) == doc && BomRead(s) == bom
  }

  lemma TrimmedSame(v: string)
    requires v != ""
    ensures Trimmed(v) == v <==> StartsLikeText(v)
  {
    var k := SkipWhiteSpace(v, 0);
    assert IsWhiteSpace(v[0]) ==> k > 0;
    assert |Trimmed(v)| == |v| - SkipBom(v, k);
    assert v[0..] == v;
  }

  lemma StableStays(bom: bool, doc: seq<Node<string>>)
    requires Stable(bom, doc)
    ensures FromStart(bom, doc) == doc && !EndsInText(doc) && NormalNodes(doc) == doc && PrintNodes(doc) != ""
    ensures BomShown(bom, doc) == bom
  {
    hide PrintNode, NormalNodes, WellFormed;
    NormalsSame(doc);
    var n := doc[0];
    if PlainText(n) {
      assert n.value != "" by { assert !Blank(n); }
      TrimmedSame(n.value);
      assert !bom ==> !BomRead(n.value);
      assert doc == [n] + doc[1..];
      assert PrintNode(n) != "" by { TextFrontOf(n.value); }
    } else {
      MarkupShows(n);
    }
  }

  lemma TextFrontOf(v: string)
    requires v != ""
    ensures PrintNode(Text(v, false)) != ""
  {
  }

  lemma MarkupShows(n: Node<string>)
    requires !PlainText(n)
    ensures PrintNode(n) != ""
  {
    hide PrintAttributes, PrintNodes;
  }

  /** Of the documents a parse yields, one that is not changed by the skips at its start, by dropping blank texts or by
      folding newlines, and ends in no text. */
  lemma BackIsStable(bom: bool, doc: seq<Node<string>>)
    requires WellFormed(doc) && doc != []
    requires NormalNodes(FromStart(bom, doc)) == doc && !EndsInText(FromStart(bom, doc))
    ensures Stable(bom, doc)
  {
    hide NormalNode, WellFormed, Trimmed, Blank;
    var n, rest := doc[0], FromStart(bom, doc);
    if !bom && PlainText(n) {
      var w := Trimmed(n.value);
      assert rest[0] == Text(w, false) && rest[1..] == doc[1..];
      FirstText(n, w, doc[1..], rest);
      assert doc == [n] + doc[1..];
    }
    assert rest == doc;
    NormalsSame(doc);
    LastNormal(doc);
  }

  lemma FirstText(n: Node<string>, w: string, tail: seq<Node<string>>, rest: seq<Node<string>>)
    requires PlainText(n) && w == Trimmed(n.value) && rest == [Text(w, false)] + tail
    requires NormalNodes(rest) == [n] + tail
    ensures n.value == w && StartsLikeText(w)
  {
    hide Folded, AllWhiteSpace;
    assert rest[1..] == tail;
    assert !Blank(rest[0]);
    assert NormalNodes(rest)[0] == NormalNode(rest[0]) == n;
    FoldedShorter(w);
    var v := n.value;
    assert v == Folded(w);
    assert |w| == |v|;
    assert w != "" by { assert !AllWhiteSpace(w); EmptyIsBlank(); }
    TrimmedSame(v);
  }

  lemma EmptyIsBlank()
    ensures AllWhiteSpace("")
  {
  }

  lemma {:induction false} LastNormal(ns: seq<Node<string>>)
    requires AreNormal(ns) && ns != []
    ensures !Blank(ns[|ns| - 1])
  {
    if |ns| > 1 { LastNormal(ns[1..]); }
  }

  /** The exact round trip: among all trees whatever, printing one compactly and parsing the output gives the tree back
      if and only if it is Stable. */
  lemma SurvivesIffStable(bom: bool, doc: seq<Node<string>>)
    ensures Survives(bom, doc) <==> Stable(bom, doc)
  {
    hide ParseDocument, PrintNodes, PrintDocument, ViewNodes, WellFormed, NormalNodes, EndsInText, FromStart;
    hide AreNormal, BomRead, BomShown;
    if Stable(bom, doc) {
      StableStays(bom, doc);
      RoundTrip(bom, doc);
    }
    if Survives(bom, doc) {
      ParsedIsWellFormed(PrintDocument(bom, doc) + [NUL]);
      RoundTrip(bom, doc);
      if doc == [] { NothingPrinted(bom, doc); } else { BackIsStable(bom, doc); }
    }
  }

  lemma NothingPrinted(bom: bool, doc: seq<Node<string>>)
    requires doc == []
    ensures PrintNodes(FromStart(bom, doc)) == ""
  {
  }

  // ----- the second round -----

  lemma {:induction false} FoldedBlank(v: string)
    ensures AllWhiteSpace(Folded(v)) <==> AllWhiteSpace(v)
    decreases |v|
  {
    hide AllWhiteSpace;
    if v != "" {
      var k := if Pairs(v) then 2 else 1;
      FoldedBlank(v[k..]);
      assert Folded(v)[1..] == Folded(v[k..]);
      assert IsWhiteSpace(Folded(v)[0]) <==> IsWhiteSpace(v[0]);
      BlankHead(Folded(v));
      BlankHead(v);
      if k == 2 {
        assert v[1..][1..] == v[2..];
        BlankHead(v[1..]);
      }
    }
  }

  lemma BlankHead(v: string)
    requires v != ""
    ensures AllWhiteSpace(v) <==> IsWhiteSpace(v[0]) && AllWhiteSpace(v[1..])
  {
    if AllWhiteSpace(v[1..]) {
      forall i | 1 <= i < |v| ensures IsWhiteSpace(v[i]) { assert v[1..][i - 1] == v[i]; }
    }
  }

  lemma {:induction false} NormalAttributesAt(list: seq<Attribute<string>>)
    ensures forall i :: 0 <= i < |list| ==> NormalAttributes(list)[i] == Attribute(list[i].name, Folded(list[i].value))
  {
    hide Folded;
    if list != [] { NormalAttributesAt(list[1..]); }
  }

  lemma NormalAttributesValid(list: seq<Attribute<string>>)
    requires ValidAttributes(list)
    ensures ValidAttributes(NormalAttributes(list))
    ensures forall a :: a in NormalAttributes(list) ==> CR !in a.value
  {
    hide Folded, NormalAttributes, NoNul, ValidName;
    NormalAttributesAt(list);
    forall i | 0 <= i < |list| ensures NoNul(Folded(list[i].value)) && CR !in Folded(list[i].value) {
      FoldedNoNul(list[i].value);
      FoldedHasNoCr(list[i].value);
    }
  }

  lemma MarkedValid(v: string, endTag: string)
    requires NoNul(v) && Lacks(v, endTag) && NoNewline(endTag) && NoNul(endTag) && endTag != ""
    ensures NoNul(Folded(v)) && Lacks(Folded(v), endTag) && CR !in Folded(v)
  {
    FoldedNoNul(v);
    FoldedHasNoCr(v);
    FoldedLacks(v, endTag);
  }

  lemma UnknownNormal(v: string)
    requires !At(v, 0, "--") && !At(v, 0, "[CDATA[")
    ensures !At(Folded(v), 0, "--") && !At(Folded(v), 0, "[CDATA[")
  {
    hide At, Folded;
    NoNulMarks();
    if At(Folded(v), 0, "--") { FoldedAt(v, "--"); }
    if At(Folded(v), 0, "[CDATA[") { FoldedAt(v, "[CDATA["); }
  }

  /** The normal form of a node is valid and normal. */
  lemma {:induction false} NormalIsValid(n: Node<string>, room: int)
    requires ValidNode(n, room) && !Blank(n)
    ensures ValidNode(NormalNode(n), room) && IsNormal(NormalNode(n)) && !Blank(NormalNode(n))
    ensures PlainText(NormalNode(n)) <==> PlainText(n)
    decreases n, 1
  {
    hide Folded, Lacks, NoNul, At, AllWhiteSpace;
    match n
    case Element(_, attributes, children) =>
      NormalAttributesValid(attributes);
      NormalsAreValid(children, room - 1);
    case Text(v, cdata) =>
      FoldedNoNul(v);
      FoldedHasNoCr(v);
      FoldedBlank(v);
      if cdata { MarkedValid(v, EndTagOf(CDataLeaf)); }
    case Comment(v) => MarkedValid(v, EndTagOf(CommentLeaf));
    case Unknown(v) =>
      MarkedValid(v, EndTagOf(UnknownLeaf));
      UnknownNormal(v);
  }

  lemma {:induction false} NormalsAreValid(ns: seq<Node<string>>, room: int)
    requires ValidNodes(ns, room)
    ensures var r := NormalNodes(ns);
      && ValidNodes(r, room) && AreNormal(r)
      && (r != [] && PlainText(r[0]) ==> PlainText(ns[0]))
      && (r != [] && !EndsInText(ns) ==> !PlainText(r[|r| - 1]))
      && (ns != [] && !Blank(ns[0]) ==> r != [])
    decreases ns, 0
  {
    hide NormalNode, IsNormal, ValidNode, Blank, PlainText;
    if ns != [] {
      NormalsAreValid(ns[1..], room);
      BlankIsPlain(ns[0]);
      if |ns| > 1 {
        EndsAlike(ns);
        BlankIsPlain(ns[1]);
      }
      if !Blank(ns[0]) {
        NormalIsValid(ns[0], room);
        assert NormalNodes(ns)[1..] == NormalNodes(ns[1..]);
      }
    }
  }

  lemma BlankIsPlain(n: Node<string>)
    ensures Blank(n) ==> PlainText(n)
  {
  }

  /** So is the normal form of a document, which ends in no text unless the document does. */
  lemma {:induction false} NormalIsWellFormed(ns: seq<Node<string>>)
    requires WellFormed(ns) && !EndsInText(ns)
    ensures var r := NormalNodes(ns); WellFormed(r) && AreNormal(r) && (r != [] ==> !PlainText(r[|r| - 1]))
    decreases |ns|
  {
    hide NormalNode, ValidNode, IsNormal;
    if ns != [] && ns[0].Declaration? {
      EndsAlike(ns);
      NormalIsWellFormed(ns[1..]);
      DeclarationNormal(ns[0]);
      assert NormalNodes(ns)[1..] == NormalNodes(ns[1..]);
    } else {
      NormalsAreValid(ns, 98);
      NoDeclarations(NormalNodes(ns), 98);
    }
  }

  lemma DeclarationNormal(n: Node<string>)
    requires n.Declaration? && NoNul(n.value) && Lacks(n.value, "?>")
    ensures var r := NormalNode(n);
      r.Declaration? && NoNul(r.value) && Lacks(r.value, "?>") && IsNormal(r) && !PlainText(r) && !Blank(r)
  {
    MarkedValid(n.value, EndTagOf(DeclarationLeaf));
  }

  lemma StartIsWellFormed(bom: bool, doc: seq<Node<string>>)
    requires WellFormed(doc)
    ensures WellFormed(FromStart(bom, doc))
  {
    if !bom { DocumentStart(PrintNodes(doc) + [NUL], doc); }
  }

  /** What Print gives for the tree of a text that parsed. */
  function Reprint(xml: string): string
    requires ParseDocument(xml).Success?
  {
    PrintDocument(BomRead(xml), ViewNodes(xml, ParseDocument(xml).nodes)) + [NUL]
  }

  /** Print after parse: whatever text was parsed, printing the tree and parsing that again either fails, when nothing
      is left of the tree or it ends in a text, or gives a tree in normal form. */
  lemma Reprinted(xml: string)
    requires ParseDocument(xml).Success?
    ensures var doc, s := ViewNodes(xml, ParseDocument(xml).nodes), Reprint(xml);
      var rest := FromStart(BomRead(xml), doc);
      && (BomRead(s) <==> BomShown(BomRead(xml), doc))
      && if PrintNodes(rest) == "" then ParseDocument(s) == Error(EmptyDocument)
         else if EndsInText(rest) then ParseDocument(s) == Error(ParsingText)
         else
           && ParseDocument(s).Success? && ViewNodes(s, ParseDocument(s).nodes) == NormalNodes(rest)
           && AreNormal(NormalNodes(rest))
  {
    hide ParseDocument, ViewNodes, PrintNodes, PrintDocument, WellFormed, NormalNodes, AreNormal, FromStart;
    hide EndsInText, BomRead, BomShown;
    var bom, doc := BomRead(xml), ViewNodes(xml, ParseDocument(xml).nodes);
    ParsedIsWellFormed(xml);
    RoundTrip(bom, doc);
    StartIsWellFormed(bom, doc);
    if !EndsInText(FromStart(bom, doc)) { NormalIsWellFormed(FromStart(bom, doc)); }
  }

  /** One round of printing and parsing is enough: the document it gives stays as it is in every further one, exactly
      unless it is empty or begins with a text whose start is skipped once more. With a byte order mark none is. */
  lemma OneRoundIsEnough(xml: string)
    requires ParseDocument(xml).Success? && ParseDocument(Reprint(xml)).Success?
    ensures var s := Reprint(xml); var bom, doc := BomRead(s), ViewNodes(s, ParseDocument(s).nodes);
      && (Survives(bom, doc) <==> doc != [] && !LosesStart(bom, doc))
      && (BomRead(xml) ==> bom)
  {
    hide ParseDocument, ViewNodes, PrintNodes, WellFormed, NormalNodes, AreNormal, FromStart, EndsInText, Survives;
    hide BomRead, LosesStart, Reprint;
    var rest := FromStart(BomRead(xml), ViewNodes(xml, ParseDocument(xml).nodes));
    ParsedIsWellFormed(xml);
    Reprinted(xml);
    StartIsWellFormed(BomRead(xml), ViewNodes(xml, ParseDocument(xml).nodes));
    NormalIsWellFormed(rest);
    SurvivesIffStable(BomRead(Reprint(xml)), NormalNodes(rest));
  }
}
