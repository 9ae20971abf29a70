/** XML trees, and the compact text XMLPrinter gives for them. */
module XmlTree {
  import opened XmlText

  datatype Attribute<S> = Attribute(name: S, value: S)

  /** A node of the document. S is string for the tree a caller sees, and a segment of the input buffer for the tree
      the parser builds. */
  datatype Node<S> =
    | Element(name: S, attributes: seq<Attribute<S>>, children: seq<Node<S>>)
    | Text(value: S, cdata: bool)
    | Comment(value: S)
    | Declaration(value: S)
    | Unknown(value: S)

  // ----- escaping -----

  /** The entity flags of XMLPrinter: all five characters in attribute values, three of them in text. */
  predicate Flagged(c: char, restricted: bool) {
    c == '&' || c == '<' || c == '>' || (!restricted && (c == '\"' || c == '\''))
  }

  function Pattern(c: char): string {
    if c == '\"' then "quot" else if c == '&' then "amp" else if c == '\'' then "apos"
    else if c == '<' then "lt" else "gt"
  }

  function EscapeChar(c: char, restricted: bool): (r: string)
    ensures r != ""
  {
    if Flagged(c, restricted) then "&" + Pattern(c) + ";" else [c]
  }

  /** What PrintString writes. */
  function Escape(v: string, restricted: bool): string {
    if v == "" then "" else EscapeChar(v[0], restricted) + Escape(v[1..], restricted)
  }

  // ----- printing -----

  function PrintAttribute(a: Attribute<string>): string {
    " " + a.name + "=\"" + Escape(a.value, false) + "\""
  }

  function PrintAttributes(attributes: seq<Attribute<string>>): string {
    if attributes == [] then "" else PrintAttribute(attributes[0]) + PrintAttributes(attributes[1..])
  }

  function PrintNode(n: Node<string>): string
    decreases n, 1
  {
    match n
    case Element(name, attributes, children) =>
      "<" + name + PrintAttributes(attributes) +
      (if children == [] then "/>" else ">" + PrintNodes(children) + "</" + name + ">")
    case Text(v, cdata) => if cdata then "<![CDATA[" + v + "]]>" else Escape(v, true)
    case Comment(v) => "<!--" + v + "-->"
    case Declaration(v) => "<?" + v + "?>"
    case Unknown(v) => "<!" + v + ">"
  }

  function PrintNodes(ns: seq<Node<string>>): string
    decreases ns, 0
  {
    if ns == [] then "" else PrintNode(ns[0]) + PrintNodes(ns[1..])
  }

  const BOM: string := "\U{EF}\U{BB}\U{BF}"

  /** The whole document, with a byte order mark if it is to have one. */
  function PrintDocument(bom: bool, doc: seq<Node<string>>): string { (if bom then BOM else "") + PrintNodes(doc) }

  // ----- newlines -----

  /** The value with its newlines normalised: a CR, and a pair of CR and LF in either order, become one LF. */
  function Folded(v: string): string
    decreases |v|
  {
    if v == "" then ""
    else if Pairs(v) then "\n" + Folded(v[2..])
    else if v[0] == CR then "\n" + Folded(v[1..])
    else [v[0]] + Folded(v[1..])
  }

  /** The value begins with a pair of newline characters that counts as one. */
  predicate Pairs(v: string) { |v| > 1 && ((v[0] == CR && v[1] == LF) || (v[0] == LF && v[1] == CR)) }

  // ----- the normal form -----

  predicate PlainText(n: Node<string>) { n.Text? && !n.cdata }

  predicate AllWhiteSpace(v: string) { forall i :: 0 <= i < |v| ==> IsWhiteSpace(v[i]) }

  predicate Blank(n: Node<string>) { PlainText(n) && AllWhiteSpace(n.value) }

  function NormalAttributes(list: seq<Attribute<string>>): (r: seq<Attribute<string>>)
    ensures |r| == |list|
  {
    if list == [] then [] else [Attribute(list[0].name, Folded(list[0].value))] + NormalAttributes(list[1..])
  }

  /** The node with the newlines of all its values normalised and without the blank texts below it: what becomes of it
      when it is printed and parsed. */
  function NormalNode(n: Node<string>): Node<string>
    decreases n, 1
  {
    match n
    case Element(name, attributes, children) => Element(name, NormalAttributes(attributes), NormalNodes(children))
    case Text(v, cdata) => Text(Folded(v), cdata)
    case Comment(v) => Comment(Folded(v))
    case Declaration(v) => Declaration(Folded(v))
    case Unknown(v) => Unknown(Folded(v))
  }

  function NormalNodes(ns: seq<Node<string>>): (r: seq<Node<string>>)
    ensures |r| <= |ns|
    decreases ns, 0
  {
    if ns == [] then []
    else if Blank(ns[0]) then NormalNodes(ns[1..])
    else [NormalNode(ns[0])] + NormalNodes(ns[1..])
  }

  /** No value of the node holds a CR, and no text below it is blank. */
  predicate IsNormal(n: Node<string>)
    decreases n, 1
  {
    match n
    case Element(_, attributes, children) => (forall a :: a in attributes ==> CR !in a.value) && AreNormal(children)
    case Text(v, _) => CR !in v
    case Comment(v) => CR !in v
    case Declaration(v) => CR !in v
    case Unknown(v) => CR !in v
  }

  predicate AreNormal(ns: seq<Node<string>>)
    decreases ns, 0
  {
    ns != [] ==> !Blank(ns[0]) && IsNormal(ns[0]) && AreNormal(ns[1..])
  }

  // ----- the trees that a parse yields -----

  predicate ValidName(name: string) {
    name != "" && IsNameStartChar(name[0]) && forall i :: 0 <= i < |name| ==> IsNameChar(name[i])
  }

  /** No NUL, which ends a value, and no CR, which parsing turns into LF. */
  predicate PlainValue(v: string) { forall i :: 0 <= i < |v| ==> v[i] != NUL && v[i] != CR }

  predicate Lacks(v: string, lit: string) { forall i :: 0 <= i < |v| ==> !At(v, i, lit) }

  predicate ValidAttributes(attributes: seq<Attribute<string>>) {
    && (forall i :: 0 <= i < |attributes| ==> ValidName(attributes[i].name) && NoNul(attributes[i].value))
    && (forall i, j :: 0 <= i < j < |attributes| ==> attributes[i].name != attributes[j].name)
  }

  /** A node, but no declaration, that can be inside `room` more nested elements. */
  predicate ValidNode(n: Node<string>, room: int)
    decreases n, 1
  {
    match n
    case Element(name, attributes, children) =>
      ValidName(name) && ValidAttributes(attributes) && (children == [] || room > 0) && ValidNodes(children, room - 1)
    case Text(v, cdata) => NoNul(v) && (cdata ==> Lacks(v, "]]>"))
    case Comment(v) => NoNul(v) && Lacks(v, "-->")
    case Declaration(_) => false
    case Unknown(v) => NoNul(v) && Lacks(v, ">") && !At(v, 0, "--") && !At(v, 0, "[CDATA[")
  }

  /** Siblings: no two texts side by side, since they would be read back as one. */
  predicate ValidNodes(ns: seq<Node<string>>, room: int)
    decreases ns, 0
  {
    ns != [] ==>
      ValidNode(ns[0], room) && ValidNodes(ns[1..], room) && (|ns| > 1 && PlainText(ns[0]) ==> !PlainText(ns[1]))
  }

  /** The nodes of a document: declarations first, then others. At most 98 open elements nest. */
  predicate WellFormed(ns: seq<Node<string>>) {
    ns != [] ==>
      if ns[0].Declaration? then NoNul(ns[0].value) && Lacks(ns[0].value, "?>") && WellFormed(ns[1..])
      else ValidNodes(ns, 98)
  }

  // ----- the documents that survive printing and parsing -----

  predicate StartsWithBom(v: string) { |v| > 2 && v[0] == '\U{EF}' && v[1] == '\U{BB}' && v[2] == '\U{BF}' }

  /** Text whose start is not taken for white space or a byte order mark. */
  predicate StartsLikeText(v: string) { v != "" && !IsWhiteSpace(v[0]) && !StartsWithBom(v) }

  /** A text at the start begins with what a parse skips there. Behind a byte order mark nothing more is skipped. */
  predicate LosesStart(bom: bool, doc: seq<Node<string>>) {
    !bom && doc != [] && PlainText(doc[0]) && !StartsLikeText(doc[0].value)
  }

  /** The documents that come back as they were: well-formed and normal, with no text at the end, where no markup ends
      it, and nothing that is skipped at the start. */
  predicate Stable(bom: bool, doc: seq<Node<string>>) {
    doc != [] && WellFormed(doc) && AreNormal(doc) && !PlainText(doc[|doc| - 1]) && !LosesStart(bom, doc)
  }
}
