/** XMLPrinter writing to memory, and the visit of a tree that drives it. A start tag is left open until it is known
    whether anything follows inside it. */
module XmlPrinter {
  import opened XmlTree

  lemma {:induction false} PrintNodesAppend(ns: seq<Node<string>>, n: Node<string>)
    ensures PrintNodes(ns + [n]) == PrintNodes(ns) + PrintNode(n)
  {
    hide PrintNode;
    if ns == [] {
      assert [] + [n] == [n] && [n][1..] == [];
    } else {
      assert (ns + [n])[1..] == ns[1..] + [n];
      PrintNodesAppend(ns[1..], n);
    }
  }

  lemma {:induction false} PrintAttributesAppend(list: seq<Attribute<string>>, a: Attribute<string>)
    ensures PrintAttributes(list + [a]) == PrintAttributes(list) + PrintAttribute(a)
  {
    hide PrintAttribute;
    if list == [] {
      assert [] + [a] == [a] && [a][1..] == [];
    } else {
      assert (list + [a])[1..] == list[1..] + [a];
      PrintAttributesAppend(list[1..], a);
    }
  }

  lemma {:induction false} EscapeAppend(v: string, w: string, restricted: bool)
    ensures Escape(v + w, restricted) == Escape(v, restricted) + Escape(w, restricted)
  {
    hide EscapeChar;
    if v == "" {
      assert v + w == w;
    } else {
      assert (v + w)[1..] == v[1..] + w;
      EscapeAppend(v[1..], w, restricted);
    }
  }

  lemma EscapeNothing(restricted: bool)
    ensures Escape("", restricted) == ""
  {
  }

  lemma EscapeOne(c: char, restricted: bool)
    ensures Escape([c], restricted) == EscapeChar(c, restricted)
  {
    hide EscapeChar;
    assert [c][1..] == "";
    assert Escape("", restricted) == "";
  }

  /** Text that is still to be flushed, and one more piece. */
  lemma Extend(written: string, run: string, before: string, whole: string, piece: string)
    requires written + run == before + whole
    ensures (written + run) + piece == before + (whole + piece) && written + (run + piece) == before + (whole + piece)
  {
    assert (before + whole) + piece == before + (whole + piece);
    assert (written + run) + piece == written + (run + piece);
  }

  const ENTITY_RANGE: int := 64

  class XMLPrinter {
    var buffer: string
    var elementJustOpened: bool
    var stack: seq<string>
    var firstElement: bool
    var depth: int
    var textDepth: int
    const compact: bool

    constructor (compact: bool)
      ensures buffer == "" && !elementJustOpened && stack == [] && this.compact == compact
    {
      buffer, elementJustOpened, stack, firstElement, depth, textDepth := "", false, [], true, 0, -1;
      this.compact := compact;
    }

    /** The mark that is still owed to a start tag. */
    function Owed(): string
      reads this`elementJustOpened
    {
      if elementJustOpened then ">" else ""
    }

    method Write(data: string)
      modifies this`buffer
      ensures buffer == old(buffer) + data
    {
      buffer := buffer + data;
    }

    method PrintSpace(depth: int)
      modifies this`buffer
    {
      var i := 0;
      while i < depth {
        Write("    ");
        i := i + 1;
      }
    }

    /** The runs of characters between entities are written whole. */
    method PrintString(v: string, restricted: bool)
      modifies this`buffer
      ensures buffer == old(buffer) + Escape(v, restricted)
    {
      hide Escape;
      EscapeNothing(restricted);
      var p, q := 0, 0;
      assert v[..0] == "" && v[0..0] == "";
      while q < |v|
        invariant p <= q <= |v|
        invariant buffer + v[p..q] == old(buffer) + Escape(v[..q], restricted)
      {
        assert v[..q + 1] == v[..q] + [v[q]];
        EscapeAppend(v[..q], [v[q]], restricted);
        EscapeOne(v[q], restricted);
        Extend(buffer, v[p..q], old(buffer), Escape(v[..q], restricted), EscapeChar(v[q], restricted));
        if (v[q] as int) < ENTITY_RANGE && Flagged(v[q], restricted) {
          Write(v[p..q]);
          WriteBetween("&", Pattern(v[q]), ";");
          p := q + 1;
          assert v[p..q + 1] == "" && buffer + "" == buffer;
        } else {
          assert v[p..q + 1] == v[p..q] + [v[q]];
        }
        q := q + 1;
      }
      assert v[..q] == v;
      Write(v[p..q]);
    }

    method SealElementIfJustOpened()
      modifies this`buffer, this`elementJustOpened
      ensures buffer == old(buffer + Owed()) && !elementJustOpened
    {
      if elementJustOpened {
        elementJustOpened := false;
        Write(">");
      }
    }

    method PrepareForNewNode(compactMode: bool)
      modifies this`buffer, this`elementJustOpened, this`firstElement
      ensures !elementJustOpened && (compactMode ==> buffer == old(buffer + Owed()))
    {
      SealElementIfJustOpened();
      if compactMode {
        return;
      }
      if firstElement {
        PrintSpace(depth);
      } else if textDepth < 0 {
        Write("\n");
        PrintSpace(depth);
      }
      firstElement := false;
    }

    method OpenElement(name: string, compactMode: bool)
      modifies this
      ensures elementJustOpened && stack == old(stack) + [name] && depth == old(depth) + 1
      ensures compactMode ==> buffer == old(buffer + Owed()) + ("<" + name)
    {
      PrepareForNewNode(compactMode);
      stack := stack + [name];
      ghost var before := buffer;
      Write("<");
      Write(name);
      assert buffer == before + ("<" + name);
      elementJustOpened := true;
      depth := depth + 1;
    }

    static lemma AttributeWritten(before: string, name: string, value: string)
      ensures before + " " + name + "=\"" + value + "\"" == before + (" " + name + "=\"" + value + "\"")
    {
    }

    method PushAttribute(a: Attribute<string>)
      requires elementJustOpened
      modifies this`buffer
      ensures buffer == old(buffer) + PrintAttribute(a)
    {
      Write(" ");
      Write(a.name);
      Write("=\"");
      PrintString(a.value, false);
      Write("\"");
      AttributeWritten(old(buffer), a.name, Escape(a.value, false));
    }

    method CloseElement(compactMode: bool)
      requires stack != []
      modifies this
      ensures !elementJustOpened && stack == old(stack[..|stack| - 1]) && depth == old(depth) - 1
      ensures compactMode ==>
        buffer == old(buffer) + if old(elementJustOpened) then "/>" else "</" + old(stack[|stack| - 1]) + ">"
    {
      depth := depth - 1;
      var name := stack[|stack| - 1];
      stack := stack[..|stack| - 1];
      if elementJustOpened {
        Write("/>");
      } else {
        if textDepth < 0 && !compactMode {
          Write("\n");
          PrintSpace(depth);
        }
        ghost var before := buffer;
        Write("</");
        Write(name);
        Write(">");
        assert buffer == before + ("</" + name + ">");
      }
      if textDepth == depth {
        textDepth := -1;
      }
      if depth == 0 && !compactMode {
        Write("\n");
      }
      elementJustOpened := false;
    }

    method PushText(text: string, cdata: bool)
      modifies this
      ensures !elementJustOpened && stack == old(stack) && depth == old(depth)
      ensures buffer == old(buffer + Owed()) + PrintNode(Text(text, cdata))
    {
      textDepth := depth - 1;
      SealElementIfJustOpened();
      if cdata {
        WriteBetween("<![CDATA[", text, "]]>");
      } else {
        PrintString(text, true);
      }
    }

    /** PushComment, PushDeclaration and PushUnknown: the value between two marks. */
    method PushMarked(mark: string, value: string, endMark: string)
      modifies this
      ensures !elementJustOpened && stack == old(stack) && depth == old(depth)
      ensures compact ==> buffer == old(buffer + Owed()) + (mark + value + endMark)
    {
      PrepareForNewNode(compact);
      WriteBetween(mark, value, endMark);
    }

    method WriteBetween(mark: string, value: string, endMark: string)
      modifies this`buffer
      ensures buffer == old(buffer) + (mark + value + endMark)
    {
      Write(mark);
      Write(value);
      Write(endMark);
      assert buffer == old(buffer) + (mark + value + endMark);
    }

    /** XMLNode::Accept with this printer as the visitor. */
    method Visit(n: Node<string>)
      modifies this
      ensures stack == old(stack) && depth == old(depth) && !elementJustOpened
      ensures compact ==> buffer == old(buffer + Owed()) + PrintNode(n)
      decreases n, 1
    {
      match n
      case Element(name, attributes, children) =>
        OpenElement(name, compact);
        PushAttributes(attributes);
        ghost var tag := buffer;
        VisitChildren(children);
        ghost var inside := buffer;
        CloseElement(compact);
        assert old(stack) + [name] != [];
        assert (old(stack) + [name])[..|old(stack)|] == old(stack);
        if compact { ElementPrinted(old(buffer + Owed()), name, attributes, children, tag, inside, buffer); }
      case Text(v, cdata) => PushText(v, cdata);
      case Comment(v) => PushMarked("<!--", v, "-->");
      case Declaration(v) => PushMarked("<?", v, "?>");
      case Unknown(v) => PushMarked("<!", v, ">");
    }

    static lemma ElementPrinted(before: string, name: string, attributes: seq<Attribute<string>>,
                                children: seq<Node<string>>, tag: string, inside: string, after: string)
      requires tag == before + ("<" + name) + PrintAttributes(attributes)
      requires inside == tag + if children == [] then "" else ">" + PrintNodes(children)
      requires after == inside + if children == [] then "/>" else "</" + name + ">"
      ensures after == before + PrintNode(Element(name, attributes, children))
    {
      hide PrintAttributes, PrintNodes;
    }

    method PushAttributes(attributes: seq<Attribute<string>>)
      requires elementJustOpened
      modifies this`buffer
      ensures buffer == old(buffer) + PrintAttributes(attributes)
    {
      assert attributes[..0] == [];
      for k := 0 to |attributes|
        invariant elementJustOpened && buffer == old(buffer) + PrintAttributes(attributes[..k])
      {
        assert attributes[..k + 1] == attributes[..k] + [attributes[k]];
        PrintAttributesAppend(attributes[..k], attributes[k]);
        PushAttribute(attributes[k]);
      }
      assert attributes[..|attributes|] == attributes;
    }

    static lemma Regroup(a: string, b: string, c: string, d: string)
      ensures (a + (b + c)) + d == a + (b + (c + d))
    {
    }

    /** The children of an element whose start tag was just opened: the first of them seals it. */
    method VisitChildren(children: seq<Node<string>>)
      requires elementJustOpened
      modifies this
      ensures stack == old(stack) && depth == old(depth) && elementJustOpened == (children == [])
      ensures compact ==> buffer == old(buffer) + if children == [] then "" else ">" + PrintNodes(children)
      decreases children, 0
    {
      assert children[..0] == [] && PrintNodes([]) == "";
      for k := 0 to |children|
        invariant stack == old(stack) && depth == old(depth) && elementJustOpened == (k == 0)
        invariant k == 0 ==> buffer == old(buffer)
        invariant compact ==> buffer + Owed() == old(buffer) + (">" + PrintNodes(children[..k]))
      {
        assert children[..k + 1] == children[..k] + [children[k]];
        PrintNodesAppend(children[..k], children[k]);
        ghost var before := buffer + Owed();
        Visit(children[k]);
        Regroup(old(buffer), ">", PrintNodes(children[..k]), PrintNode(children[k]));
        assert compact ==> buffer + Owed() == before + PrintNode(children[k]);
      }
      assert children[..|children|] == children;
      assert buffer + "" == buffer;
    }

    static function Header(writeBOM: bool, writeDec: bool, owed: string): string {
      (if writeBOM then BOM else "") + if writeDec then owed + PrintNode(Declaration("xml version=\"1.0\"")) else ""
    }

    /** The byte order mark and the declaration, when they are asked for. The mark is written even into an open tag. */
    method PushHeader(writeBOM: bool, writeDec: bool)
      modifies this
      ensures stack == old(stack) && depth == old(depth) && elementJustOpened == (old(elementJustOpened) && !writeDec)
      ensures compact ==> buffer == old(buffer) + Header(writeBOM, writeDec, old(Owed()))
    {
      if writeBOM { Write(BOM); }
      if writeDec { PushMarked("<?", "xml version=\"1.0\"", "?>"); }
    }

    /** XMLDocument::Print into a new printer: a document that was read with a byte order mark is written with one. */
    method PrintDocument(hasBOM: bool, doc: seq<Node<string>>)
      requires buffer == "" && !elementJustOpened
      modifies this
      ensures compact ==> buffer == XmlTree.PrintDocument(hasBOM, doc)
    {
      if hasBOM { PushHeader(true, false); }
      ghost var head := if hasBOM then BOM else "";
      assert doc[..0] == [] && PrintNodes([]) == "";
      for k := 0 to |doc|
        invariant !elementJustOpened && (compact ==> buffer == head + PrintNodes(doc[..k]))
      {
        assert doc[..k + 1] == doc[..k] + [doc[k]];
        PrintNodesAppend(doc[..k], doc[k]);
        Visit(doc[k]);
      }
      assert doc[..|doc|] == doc;
    }
  }
}
