/** The recursive parser, which reads end tags one level below the element they end and hands them up, accepts the
    same input as a flat scan that keeps the names of the open elements on a stack. */
module XmlBalance {
  import opened XmlText
  import opened XmlTree
  import opened XmlParser

  function Top(stack: seq<string>): string
    requires stack != []
  {
    stack[|stack| - 1]
  }

  function Pop(stack: seq<string>): seq<string>
    requires stack != []
  {
    stack[..|stack| - 1]
  }

  /** One pass over the tags: every end tag has to name the innermost open element, none may be left open at the end,
      at most 98 may be open at once, and declarations come first. An end tag when none is open ends the pass. */
  predicate Scan(s: string, p: nat, stack: seq<string>, declarations: bool)
    requires p <= |s|
    decreases |s| - p
  {
    if Ch(s, p) == NUL then stack == []
    else
      match Identify(s, p)
      case Simple(NoNode) => stack == []
      case Simple(Fail(_)) => false
      case Simple(One(node, _, _, q)) =>
        if node.Declaration? then stack == [] && declarations && Scan(s, q, stack, true) else Scan(s, q, stack, false)
      case TagAt(t) =>
        match ReadTag(s, t)
        case BadTag(_) => false
        case Tag(name, _, closing, q) =>
          match closing
          case CLOSED => Scan(s, q, stack, false)
          case CLOSING => stack == [] || (Top(stack) == Raw(s, name) && Scan(s, q, Pop(stack), false))
          case OPEN => Ch(s, q) != NUL && |stack| < 98 && Scan(s, q, stack + [Raw(s, name)], false)
  }

  /** What the scan makes of the rest once the loop of ParseDeep has ended. */
  predicate ScanAfter(s: string, loop: Loop, stack: seq<string>)
    requires loop.Closed? ==> loop.p <= |s| && loop.endTag.start <= loop.endTag.end <= |s|
  {
    match loop
    case Failed(_) => false
    case Ended(_) => stack == []
    case Closed(_, endTag, q) => stack == [] || (Top(stack) == Raw(s, endTag) && Scan(s, q, Pop(stack), false))
  }

  lemma {:induction false} LoopIsScan(s: string, p: nat, depth: nat, done: seq<Node<Segment>>, stack: seq<string>)
    requires p <= |s| && depth < MAX_ELEMENT_DEPTH && depth == |stack| + 1
    ensures Scan(s, p, stack, stack == [] && OnlyDeclarations(done))
        <==> ScanAfter(s, ParseNodes(s, p, depth, stack == [], done), stack)
    decreases |s| - p, 2
  {
    hide Identify, ReadTag, SameName;
    if Ch(s, p) != NUL {
      match Identify(s, p)
      case Simple(one) =>
        if one.One? && !(one.node.Declaration? && !(stack == [] && OnlyDeclarations(done))) {
          LoopIsScan(s, one.p, depth, done + [one.node], stack);
        }
      case TagAt(t) => TagIsScan(s, p, t, depth, done, stack);
    }
  }

  lemma {:induction false} TagIsScan(s: string, p: nat, t: nat, depth: nat, done: seq<Node<Segment>>,
                                     stack: seq<string>)
    requires p < t <= |s| && depth < MAX_ELEMENT_DEPTH && depth == |stack| + 1
    requires Ch(s, p) != NUL && Identify(s, p) == TagAt(t)
    ensures Scan(s, p, stack, stack == [] && OnlyDeclarations(done))
        <==> ScanAfter(s, ParseNodes(s, p, depth, stack == [], done), stack)
    decreases |s| - t, 1
  {
    hide Identify, ReadTag, SameName, ParseOne, ParseNodes, ParseElement;
    LoopAtTag(s, p, t, depth, stack == [], done);
    ElementOfTag(s, t, depth);
    var tag, one := ReadTag(s, t), ParseElement(s, t, depth);
    if one.One? { NoneOf(done, one.node); }
    if tag.Tag? {
      match tag.closing
      case CLOSED => LoopIsScan(s, tag.p, depth, done + [one.node], stack);
      case CLOSING =>
      case OPEN =>
        if Ch(s, tag.p) != NUL {
          OpenIsScan(s, t, depth, stack);
          if one.One? && SameName(s, one.endTag.value, tag.name) {
            LoopIsScan(s, one.p, depth, done + [one.node], stack);
          }
        }
    }
  }

  /** What the loop makes of an element. */
  lemma LoopAtTag(s: string, p: nat, t: nat, depth: nat, top: bool, done: seq<Node<Segment>>)
    requires p < t <= |s| && depth < MAX_ELEMENT_DEPTH && Ch(s, p) != NUL && Identify(s, p) == TagAt(t)
    ensures var one, loop := ParseElement(s, t, depth), ParseNodes(s, p, depth, top, done);
      if one.Fail? then loop == Failed(one.error)
      else if one.closing == CLOSING then loop == Closed(done, one.node.name, one.p)
      else if Mismatch(s, one.node.name, one.closing, one.endTag) then loop == Failed(MismatchedElement)
      else loop == ParseNodes(s, one.p, depth, top, done + [one.node])
  {
    hide Identify, ParseElement, Mismatch;
    assert ParseOne(s, p, depth) == ParseElement(s, t, depth);
    hide ParseOne;
  }

  lemma ElementOfTag(s: string, t: nat, depth: nat)
    requires t <= |s| && depth < MAX_ELEMENT_DEPTH
    ensures var tag, one := ReadTag(s, t), ParseElement(s, t, depth);
      && (tag.BadTag? ==> one == Fail(tag.error))
      && (tag.Tag? && one.One? ==> one.node.name == tag.name)
      && (tag.Tag? && (Ch(s, tag.p) == NUL || tag.closing != OPEN) ==>
        one == One(Element(tag.name, tag.list, []), tag.closing, None, tag.p))
      && (tag.Tag? && one.One? && one.endTag.Some? ==> one.closing == OPEN)
  {
    hide ReadTag, ParseDeep;
  }

  lemma NoneOf(done: seq<Node<Segment>>, node: Node<Segment>)
    requires !node.Declaration?
    ensures !OnlyDeclarations(done + [node])
  {
    assert (done + [node])[|done|] == node;
  }

  /** An open tag: the scan goes on exactly after the end tag the element got, if it is its own. */
  lemma {:induction false} OpenIsScan(s: string, t: nat, depth: nat, stack: seq<string>)
    requires t <= |s| && depth < MAX_ELEMENT_DEPTH && depth == |stack| + 1
    requires var tag := ReadTag(s, t); tag.Tag? && tag.closing == OPEN && Ch(s, tag.p) != NUL
    ensures var tag, one := ReadTag(s, t), ParseElement(s, t, depth);
      (|stack| < 98 && Scan(s, tag.p, stack + [Raw(s, tag.name)], false))
      <==> (one.One? && one.endTag.Some? && SameName(s, one.endTag.value, tag.name) && Scan(s, one.p, stack, false))
    ensures var one := ParseElement(s, t, depth); one.One? ==> one.endTag.Some? && one.node.name == ReadTag(s, t).name
    decreases |s| - t, 0
  {
    hide Identify, ReadTag, Scan;
    var tag := ReadTag(s, t);
    if |stack| < 98 {
      var inner := stack + [Raw(s, tag.name)];
      LoopIsScan(s, tag.p, depth + 1, [], inner);
      assert Top(inner) == Raw(s, tag.name) && Pop(inner) == stack;
    }
  }

  /** A parse succeeds exactly when the input is not blank and its tags balance. */
  lemma SucceedsIffBalanced(s: string)
    ensures var p := SkipBom(s, SkipWhiteSpace(s, 0));
      ParseDocument(s).Success? <==> Ch(s, p) != NUL && Scan(s, p, [], true)
  {
    var p := SkipBom(s, SkipWhiteSpace(s, 0));
    LoopIsScan(s, p, 1, [], []);
  }
}
