/** The parser of the XML library as functions of the input buffer: XMLDocument::Parse, Identify, the ParseDeep
    functions and ParseAttributes, with the library's default settings (entities processed, white space kept). */
module XmlParser {
  import opened XmlText
  import opened Decoding
  import opened XmlTree

  /** What StrPair::Set is called with. */
  datatype Segment = Segment(start: nat, end: nat, mode: Mode)

  const NAME: Mode := Mode(false, false)
  const VERBATIM: Mode := Mode(false, true)
  const ESCAPED: Mode := Mode(true, true)

  datatype XMLError =
    | ParsingElement | ParsingAttribute | ParsingText | ParsingCData | ParsingComment | ParsingDeclaration
    | ParsingUnknown | EmptyDocument | MismatchedElement | Parsing | ElementDepthExceeded

  const MAX_ELEMENT_DEPTH: nat := 100

  function Raw(s: string, seg: Segment): string
    requires seg.start <= seg.end <= |s|
  {
    s[seg.start..seg.end]
  }

  // ----- the tree a caller sees -----

  /** GetStr of a segment, as a C string. */
  function View(s: string, seg: Segment): string {
    if seg.start <= seg.end <= |s| then UpToNul(Flush(Raw(s, seg), 0, 0, seg.mode)) else ""
  }

  function ViewAttributes(s: string, list: seq<Attribute<Segment>>): seq<Attribute<string>> {
    if list == [] then []
    else [Attribute(View(s, list[0].name), View(s, list[0].value))] + ViewAttributes(s, list[1..])
  }

  function ViewNode(s: string, n: Node<Segment>): Node<string>
    decreases n, 1
  {
    match n
    case Element(name, list, children) => Element(View(s, name), ViewAttributes(s, list), ViewNodes(s, children))
    case Text(v, cdata) => Text(View(s, v), cdata)
    case Comment(v) => Comment(View(s, v))
    case Declaration(v) => Declaration(View(s, v))
    case Unknown(v) => Unknown(View(s, v))
  }

  function ViewNodes(s: string, ns: seq<Node<Segment>>): seq<Node<string>>
    decreases ns, 0
  {
    if ns == [] then [] else [ViewNode(s, ns[0])] + ViewNodes(s, ns[1..])
  }

  // ----- attributes -----

  datatype OneAttribute = NoAttribute | OneAttribute(attribute: Attribute<Segment>, p: nat)

  /** XMLAttribute::ParseDeep at a name start character. */
  function ParseAttribute(s: string, p: nat): (r: OneAttribute)
    requires p < |s| && IsNameStartChar(s[p])
    ensures r.OneAttribute? ==>
      && p < r.p <= |s| && r.attribute.name.start == p && r.attribute.name.mode == NAME
      && p < r.attribute.name.end < r.attribute.value.start <= r.attribute.value.end < r.p
  {
    var e := NameEnd(s, p);
    var q := SkipWhiteSpace(s, e);
    if Ch(s, e) == NUL || Ch(s, q) != '=' then NoAttribute
    else
      var v := SkipWhiteSpace(s, q + 1);
      if Ch(s, v) != '\"' && Ch(s, v) != '\'' then NoAttribute
      else
        match FindEnd(s, v + 1, [s[v]])
        case None => NoAttribute
        case Some(close) =>
          OneAttribute(Attribute(Segment(p, e, NAME), Segment(v + 1, close, ESCAPED)), close + 1)
  }

  datatype Attributes = BadAttributes(error: XMLError) | Attributes(list: seq<Attribute<Segment>>, p: nat, closed: bool)

  predicate NameTaken(s: string, list: seq<Attribute<Segment>>, seg: Segment)
    requires seg.start <= seg.end <= |s|
  {
    exists i :: 0 <= i < |list| && list[i].name.start <= list[i].name.end <= |s| && Raw(s, list[i].name) == Raw(s, seg)
  }

  /** XMLElement::ParseAttributes from p on, with the attributes of `list` already read. */
  function ParseAttributes(s: string, p: nat, list: seq<Attribute<Segment>>): (r: Attributes)
    requires p <= |s|
    ensures r.Attributes? ==> p < r.p <= |s|
    decreases |s| - p
  {
    var q := SkipWhiteSpace(s, p);
    if Ch(s, q) == NUL then BadAttributes(ParsingElement)
    else if IsNameStartChar(s[q]) then
      match ParseAttribute(s, q)
      case NoAttribute => BadAttributes(ParsingAttribute)
      case OneAttribute(a, q') =>
        if NameTaken(s, list, a.name) then BadAttributes(ParsingAttribute)
        else ParseAttributes(s, q', list + [a])
    else if s[q] == '>' then Attributes(list, q + 1, false)
    else if s[q] == '/' && Ch(s, q + 1) == '>' then Attributes(list, q + 2, true)
    else BadAttributes(ParsingElement)
  }

  // ----- nodes -----

  datatype ClosingType = OPEN | CLOSED | CLOSING

  /** What a virtual ParseDeep gives its caller: the error the document ends with when the pointer it returns is null;
      otherwise the node, the end tag that was read for it by one of its children, and the pointer. NoNode is Identify
      finding only white space. */
  datatype One =
    | NoNode
    | Fail(error: XMLError)
    | One(node: Node<Segment>, closing: ClosingType, endTag: Option<Segment>, p: nat)

  /** What the loop of XMLNode::ParseDeep ends with: the input's end, an end tag for the caller, or an error. */
  datatype Loop =
    | Ended(nodes: seq<Node<Segment>>)
    | Closed(nodes: seq<Node<Segment>>, endTag: Segment, p: nat)
    | Failed(error: XMLError)

  datatype LeafKind = CommentLeaf | CDataLeaf | DeclarationLeaf | UnknownLeaf

  function MakeLeaf(kind: LeafKind, seg: Segment): (n: Node<Segment>)
    ensures !n.Element? && n.value == seg
  {
    match kind
    case CommentLeaf => Comment(seg)
    case CDataLeaf => Text(seg, true)
    case DeclarationLeaf => Declaration(seg)
    case UnknownLeaf => Unknown(seg)
  }

  /** A node that is one piece of text up to an end mark. */
  function Leaf(s: string, start: nat, endTag: string, error: XMLError, kind: LeafKind): (r: One)
    requires start <= |s| && endTag != "" && NoNul(endTag)
    ensures r.Fail? || (r.One? && start < r.p <= |s| && r.endTag == None && r.closing == OPEN && !r.node.Element?
                        && start <= r.node.value.start <= r.node.value.end < r.p)
  {
    match FindEnd(s, start, endTag)
    case None => Fail(error)
    case Some(e) => One(MakeLeaf(kind, Segment(start, e, VERBATIM)), OPEN, None, e + |endTag|)
  }

  /** What the markup at p is: something read by itself, or an element whose tag starts at p. */
  datatype Identified = Simple(one: One) | TagAt(p: nat)

  /** XMLDocument::Identify at p, and the ParseDeep of every kind of node but elements. */
  function Identify(s: string, p: nat): (r: Identified)
    requires p <= |s|
    ensures r.TagAt? ==> p < r.p <= |s|
    ensures r.Simple? && r.one.One? ==>
      p < r.one.p <= |s| && !r.one.node.Element? && r.one.closing == OPEN && r.one.endTag == None
  {
    var q := SkipWhiteSpace(s, p);
    if Ch(s, q) == NUL then Simple(NoNode)
    else if Ch(s, q) != '<' then
      (match FindEnd(s, p, "<")
       case None => Simple(Fail(ParsingText))
       case Some(e) =>
         AtChar(s, e, '<');
         if Ch(s, e + 1) == NUL then Simple(Fail(Parsing))
         else Simple(One(Text(Segment(p, e, ESCAPED), false), OPEN, None, e)))
    else if Ch(s, q + 1) == '?' then
      Simple(Leaf(s, q + 2, "?>", ParsingDeclaration, DeclarationLeaf))
    else if At(s, q, "<!--") then
      AtFits(s, q, "<!--");
      Simple(Leaf(s, q + 4, "-->", ParsingComment, CommentLeaf))
    else if At(s, q, "<![CDATA[") then
      AtFits(s, q, "<![CDATA[");
      Simple(Leaf(s, q + 9, "]]>", ParsingCData, CDataLeaf))
    else if Ch(s, q + 1) == '!' then
      Simple(Leaf(s, q + 2, ">", ParsingUnknown, UnknownLeaf))
    else TagAt(q + 1)
  }

  datatype TagRead =
    | BadTag(error: XMLError)
    | Tag(name: Segment, list: seq<Attribute<Segment>>, closing: ClosingType, p: nat)

  /** XMLElement::ParseDeep after the '<', up to the end of the tag. "</a/>" counts as closed, not as an end tag. */
  function ReadTag(s: string, p: nat): (r: TagRead)
    requires p <= |s|
    ensures r.Tag? ==> p < r.p <= |s| && p <= r.name.start < r.name.end < r.p && r.name.mode == NAME
  {
    var q := SkipWhiteSpace(s, p);
    var slash := Ch(s, q) == '/';
    var n := if slash then q + 1 else q;
    if !IsNameStartChar(Ch(s, n)) then BadTag(Parsing)
    else
      var e := NameEnd(s, n);
      match ParseAttributes(s, e, [])
      case BadAttributes(error) => BadTag(error)
      case Attributes(list, q', closed) =>
        Tag(Segment(n, e, NAME), list, if closed then CLOSED else if slash then CLOSING else OPEN, q')
  }

  /** Identify at p, then the ParseDeep of the node it makes; `depth` is _parsingDepth. */
  function ParseOne(s: string, p: nat, depth: nat): (r: One)
    requires p <= |s| && depth < MAX_ELEMENT_DEPTH
    ensures r.One? ==> p < r.p <= |s| && (r.closing == CLOSING ==> r.node.Element?)
    ensures r.One? && r.node.Element? ==> r.node.name.start < r.node.name.end <= |s|
    decreases |s| - p, 0
  {
    match Identify(s, p)
    case Simple(one) => one
    case TagAt(q) => ParseElement(s, q, depth)
  }

  /** XMLElement::ParseDeep, after the '<'. */
  function ParseElement(s: string, p: nat, depth: nat): (r: One)
    requires p <= |s| && depth < MAX_ELEMENT_DEPTH
    ensures !r.NoNode? && (r.One? ==> p < r.p <= |s| && r.node.Element? && r.node.name.start < r.node.name.end <= |s|)
    decreases |s| - p, 1
  {
    match ReadTag(s, p)
    case BadTag(error) => Fail(error)
    case Tag(name, list, closing, q) =>
      if Ch(s, q) == NUL || closing != OPEN then One(Element(name, list, []), closing, None, q)
      else
        match ParseDeep(s, q, depth, false)
        case Ended(_) => Fail(Parsing)
        case Failed(error) => Fail(error)
        case Closed(nodes, endTag, q') => One(Element(name, list, nodes), OPEN, Some(endTag), q')
  }

  /** XMLNode::ParseDeep: the DepthTracker, then the loop. */
  function ParseDeep(s: string, p: nat, depth: nat, top: bool): (r: Loop)
    requires p <= |s| && depth < MAX_ELEMENT_DEPTH
    ensures r.Closed? ==> p < r.p <= |s| && r.endTag.start < r.endTag.end <= |s|
    decreases |s| - p, 3
  {
    if depth + 1 == MAX_ELEMENT_DEPTH then Failed(ElementDepthExceeded) else ParseNodes(s, p, depth + 1, top, [])
  }

  /** The loop, with the children in `done` already inserted. */
  function ParseNodes(s: string, p: nat, depth: nat, top: bool, done: seq<Node<Segment>>): (r: Loop)
    requires p <= |s| && depth < MAX_ELEMENT_DEPTH
    ensures r.Closed? ==> p < r.p <= |s| && r.endTag.start < r.endTag.end <= |s|
    decreases |s| - p, 2
  {
    if Ch(s, p) == NUL then Ended(done)
    else
      match ParseOne(s, p, depth)
      case NoNode => Ended(done)
      case Fail(error) => Failed(error)
      case One(node, closing, endTag, q) =>
        if node.Declaration? && !(top && OnlyDeclarations(done)) then
          Failed(ParsingDeclaration)
        else if closing == CLOSING then Closed(done, node.name, q)
        else if node.Element? && Mismatch(s, node.name, closing, endTag) then Failed(MismatchedElement)
        else ParseNodes(s, q, depth, top, done + [node])
  }

  /** The test for a well located declaration: it looks at the first and the last child. */
  predicate OnlyDeclarations(done: seq<Node<Segment>>) {
    done == [] || (done[0].Declaration? && done[|done| - 1].Declaration?)
  }

  predicate Mismatch(s: string, name: Segment, closing: ClosingType, endTag: Option<Segment>)
  {
    match endTag
    case None => closing == OPEN
    case Some(tag) => closing != OPEN || !SameName(s, tag, name)
  }

  predicate SameName(s: string, a: Segment, b: Segment) {
    a.start <= a.end <= |s| && b.start <= b.end <= |s| && Raw(s, a) == Raw(s, b)
  }

  // ----- the document -----

  datatype Document = Success(nodes: seq<Node<Segment>>) | Error(error: XMLError)

  /** The three bytes of a byte order mark are at p. */
  predicate HasBom(s: string, p: nat) {
    Ch(s, p) == '\U{EF}' && Ch(s, p + 1) == '\U{BB}' && Ch(s, p + 2) == '\U{BF}'
  }

  /** XMLUtil::ReadBOM */
  function SkipBom(s: string, p: nat): (q: nat)
    requires p <= |s|
    ensures p <= q <= |s| && (q != p <==> HasBom(s, p))
  {
    if HasBom(s, p) then p + 3 else p
  }

  /** _writeBOM after Parse: whether the input had a byte order mark, which Print then writes again. */
  predicate BomRead(s: string) { HasBom(s, SkipWhiteSpace(s, 0)) }

  /** XMLDocument::Parse. A stray end tag at document level ends the parse without an error. */
  function ParseDocument(s: string): Document {
    var p := SkipBom(s, SkipWhiteSpace(s, 0));
    if Ch(s, p) == NUL then Error(EmptyDocument)
    else
      match ParseDeep(s, p, 0, true)
      case Ended(nodes) => Success(nodes)
      case Closed(nodes, _, _) => Success(nodes)
      case Failed(error) => Error(error)
  }
}
