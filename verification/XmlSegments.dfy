/** The segments of the input buffer that a parse hands out lie one after the other, each with room for the NUL that
    reading it writes. */
module XmlSegments {
  import opened XmlText
  import opened XmlTree
  import opened XmlParser

  function AttributeSegments(list: seq<Attribute<Segment>>): seq<Segment> {
    if list == [] then [] else [list[0].name, list[0].value] + AttributeSegments(list[1..])
  }

  /** The segments of a node in the order of the text. */
  function Segments(n: Node<Segment>): seq<Segment>
    decreases n, 1
  {
    match n
    case Element(name, list, children) => [name] + AttributeSegments(list) + AllSegments(children)
    case Text(v, _) => [v]
    case Comment(v) => [v]
    case Declaration(v) => [v]
    case Unknown(v) => [v]
  }

  function AllSegments(ns: seq<Node<Segment>>): seq<Segment>
    decreases ns, 0
  {
    if ns == [] then [] else Segments(ns[0]) + AllSegments(ns[1..])
  }

  /** In order from lo to hi, no two sharing a byte, terminators included. */
  predicate Within(segs: seq<Segment>, lo: nat, hi: nat) {
    segs != [] ==> lo <= segs[0].start <= segs[0].end < hi && Within(segs[1..], segs[0].end + 1, hi)
  }

  lemma {:induction false} WithinWiden(segs: seq<Segment>, lo: nat, hi: nat, lo': nat, hi': nat)
    requires Within(segs, lo, hi) && lo' <= lo && hi <= hi'
    ensures Within(segs, lo', hi')
  {
    if segs != [] { WithinWiden(segs[1..], segs[0].end + 1, hi, segs[0].end + 1, hi'); }
  }

  lemma {:induction false} WithinConcat(a: seq<Segment>, b: seq<Segment>, lo: nat, mid: nat, hi: nat)
    requires Within(a, lo, mid) && Within(b, mid, hi) && lo <= mid <= hi
    ensures Within(a + b, lo, hi)
  {
    if a == [] {
      assert a + b == b;
      WithinWiden(b, mid, hi, lo, hi);
    } else {
      assert (a + b)[1..] == a[1..] + b;
      WithinConcat(a[1..], b, a[0].end + 1, mid, hi);
    }
  }

  lemma {:induction false} WithinApart(segs: seq<Segment>, lo: nat, hi: nat)
    requires Within(segs, lo, hi)
    ensures forall i :: 0 <= i < |segs| ==> lo <= segs[i].start <= segs[i].end < hi
    ensures forall i, j :: 0 <= i < j < |segs| ==> segs[i].end < segs[j].start
  {
    if segs != [] {
      WithinApart(segs[1..], segs[0].end + 1, hi);
      assert forall i :: 1 <= i < |segs| ==> segs[i] == segs[1..][i - 1];
    }
  }

  lemma {:induction false} AttributeSegmentsAppend(list: seq<Attribute<Segment>>, a: Attribute<Segment>)
    ensures AttributeSegments(list + [a]) == AttributeSegments(list) + [a.name, a.value]
  {
    if list == [] {
      assert AttributeSegments([a][1..]) == [];
    } else {
      assert (list + [a])[1..] == list[1..] + [a];
      AttributeSegmentsAppend(list[1..], a);
    }
  }

  lemma {:induction false} AllSegmentsAppend(ns: seq<Node<Segment>>, n: Node<Segment>)
    ensures AllSegments(ns + [n]) == AllSegments(ns) + Segments(n)
  {
    if ns == [] {
      assert ([n])[1..] == [] && [] + [n] == [n];
    } else {
      assert (ns + [n])[1..] == ns[1..] + [n];
      AllSegmentsAppend(ns[1..], n);
    }
  }

  lemma {:induction false} AttributesWithin(s: string, p: nat, list: seq<Attribute<Segment>>, lo: nat)
    requires lo <= p <= |s| && Within(AttributeSegments(list), lo, p) && ParseAttributes(s, p, list).Attributes?
    ensures var r := ParseAttributes(s, p, list); Within(AttributeSegments(r.list), lo, r.p)
    decreases |s| - p
  {
    hide SkipWhiteSpace, ParseAttribute, NameTaken, Within, AttributeSegments;
    var q := SkipWhiteSpace(s, p);
    if IsNameStartChar(s[q]) {
      var r := ParseAttribute(s, q);
      var pair := [r.attribute.name, r.attribute.value];
      PairWithin(r.attribute.name, r.attribute.value, p, r.p);
      WithinConcat(AttributeSegments(list), pair, lo, p, r.p);
      AttributeSegmentsAppend(list, r.attribute);
      AttributesWithin(s, r.p, list + [r.attribute], lo);
    } else {
      var r := ParseAttributes(s, p, list);
      WithinWiden(AttributeSegments(list), lo, p, lo, r.p);
    }
  }

  lemma PairWithin(a: Segment, b: Segment, lo: nat, hi: nat)
    requires lo <= a.start <= a.end < b.start <= b.end < hi
    ensures Within([a, b], lo, hi)
  {
    assert [a, b][1..] == [b] && [b][1..] == [];
  }

  lemma TagWithin(s: string, t: nat)
    requires t <= |s| && ReadTag(s, t).Tag?
    ensures var tag := ReadTag(s, t); Within([tag.name] + AttributeSegments(tag.list), t, tag.p)
  {
    hide ParseAttribute, NameTaken, AttributeSegments;
    var tag := ReadTag(s, t);
    var e := tag.name.end;
    var segs := AttributeSegments(tag.list);
    assert Within(segs, e + 1, tag.p) by {
      if IsWhiteSpace(Ch(s, e)) {
        assert ParseAttributes(s, e, []) == ParseAttributes(s, e + 1, []);
        NoSegments();
        AttributesWithin(s, e + 1, [], e + 1);
      } else {
        NoSegments();
      }
    }
    assert ([tag.name] + segs)[1..] == segs;
  }

  lemma NoSegments()
    ensures AttributeSegments([]) == [] && AllSegments([]) == [] && forall lo, hi :: Within([], lo, hi)
  {
  }

  /** Where the segments of a node that is read from p can begin, and where those read before p have ended: the '<'
      at which a text ends is its terminator, and is the first byte of what follows. */
  function Edge(s: string, p: nat): (e: nat)
    ensures p <= e <= p + 1 && (p <= |s| ==> e <= |s|)
  {
    if Ch(s, p) == '<' then p + 1 else p
  }

  lemma SimpleWithin(s: string, p: nat)
    requires p <= |s| && Identify(s, p).Simple? && Identify(s, p).one.One?
    ensures var one := Identify(s, p).one; Within(Segments(one.node), Edge(s, p), Edge(s, one.p))
  {
    hide FindEnd, SkipWhiteSpace, At, Within;
    var one := Identify(s, p).one;
    var q := SkipWhiteSpace(s, p);
    if Ch(s, q) != '<' {
      AtChar(s, one.p, '<');
    } else {
      MarkupEnds(s, p);
    }
    OneWithin(one.node.value, Edge(s, p), Edge(s, one.p));
  }

  lemma MarkupEnds(s: string, p: nat)
    requires p <= |s| && Identify(s, p).Simple? && Identify(s, p).one.One? && Ch(s, SkipWhiteSpace(s, p)) == '<'
    ensures var one := Identify(s, p).one; p + 1 < one.node.value.start <= one.node.value.end < one.p
  {
    hide FindEnd, SkipWhiteSpace, At;
  }

  lemma OneWithin(seg: Segment, lo: nat, hi: nat)
    requires lo <= seg.start <= seg.end < hi
    ensures Within([seg], lo, hi)
  {
  }

  lemma {:induction false} ElementWithin(s: string, t: nat, depth: nat)
    requires t <= |s| && depth < MAX_ELEMENT_DEPTH && ParseElement(s, t, depth).One?
    ensures var one := ParseElement(s, t, depth); Within(Segments(one.node), t, Edge(s, one.p))
    ensures var one := ParseElement(s, t, depth); one.endTag.Some? ==>
      Within(Segments(one.node) + [one.endTag.value], t, one.p)
    decreases |s| - t, 1
  {
    hide ReadTag, Within, AttributeSegments, AllSegments, ParseNodes, Edge;
    var tag, one := ReadTag(s, t), ParseElement(s, t, depth);
    var head := [tag.name] + AttributeSegments(tag.list);
    TagWithin(s, t);
    if one.endTag.None? {
      NoSegments();
      assert Segments(one.node) == head + [];
      WithinWiden(head, t, tag.p, t, Edge(s, one.p));
      assert head + [] == head;
    } else {
      NoSegments();
      WithinWiden([], tag.p, tag.p, tag.p, Edge(s, tag.p));
      LoopWithin(s, tag.p, depth + 1, false, [], tag.p);
      var nodes := one.node.children;
      var all := AllSegments(nodes) + [one.endTag.value];
      WithinConcat(head, all, t, tag.p, one.p);
      assert head + all == Segments(one.node) + [one.endTag.value];
      WithinDropLast(head + AllSegments(nodes), one.endTag.value, t, one.p);
      WithinWiden(head + AllSegments(nodes), t, one.p, t, Edge(s, one.p));
    }
  }

  lemma {:induction false} WithinDropLast(segs: seq<Segment>, last: Segment, lo: nat, hi: nat)
    requires Within(segs + [last], lo, hi)
    ensures Within(segs, lo, hi)
  {
    if segs != [] {
      assert (segs + [last])[1..] == segs[1..] + [last];
      WithinDropLast(segs[1..], last, segs[0].end + 1, hi);
    }
  }

  lemma {:induction false} OneNodeWithin(s: string, p: nat, depth: nat)
    requires p <= |s| && depth < MAX_ELEMENT_DEPTH && ParseOne(s, p, depth).One?
    ensures var one := ParseOne(s, p, depth); Within(Segments(one.node), Edge(s, p), Edge(s, one.p))
    ensures var one := ParseOne(s, p, depth); one.closing == CLOSING ==> Within([one.node.name], Edge(s, p), one.p)
    ensures var one := ParseOne(s, p, depth);
      one.endTag.Some? ==> Within(Segments(one.node) + [one.endTag.value], Edge(s, p), one.p)
    decreases |s| - p, 0
  {
    hide Identify, ParseElement, Within, Segments;
    match Identify(s, p)
    case Simple(_) => SimpleWithin(s, p);
    case TagAt(t) =>
      ElementWithin(s, t, depth);
      var one := ParseElement(s, t, depth);
      WithinWiden(Segments(one.node), t, Edge(s, one.p), Edge(s, p), Edge(s, one.p));
      if one.endTag.Some? { WithinWiden(Segments(one.node) + [one.endTag.value], t, one.p, Edge(s, p), one.p); }
      if one.closing == CLOSING {
        EndTagWithin(s, t, depth);
        WithinWiden([one.node.name], t, one.p, Edge(s, p), one.p);
      }
  }

  lemma EndTagWithin(s: string, t: nat, depth: nat)
    requires t <= |s| && depth < MAX_ELEMENT_DEPTH && ParseElement(s, t, depth).One?
    requires ParseElement(s, t, depth).closing == CLOSING
    ensures Within([ParseElement(s, t, depth).node.name], t, ParseElement(s, t, depth).p)
  {
    hide ReadTag;
    OneWithin(ReadTag(s, t).name, t, ReadTag(s, t).p);
  }

  /** The segments that the loop hands out lie in order from lo on. */
  predicate LoopSegments(loop: Loop, lo: nat, hi: nat) {
    match loop
    case Failed(_) => true
    case Ended(nodes) => Within(AllSegments(nodes), lo, hi)
    case Closed(nodes, endTag, q) => Within(AllSegments(nodes) + [endTag], lo, q)
  }

  /** The loop of ParseDeep: the children's segments lie in order, and the end tag's after them. */
  lemma {:induction false} LoopWithin(s: string, p: nat, depth: nat, top: bool, done: seq<Node<Segment>>, lo: nat)
    requires p <= |s| && depth < MAX_ELEMENT_DEPTH && lo <= Edge(s, p) && Within(AllSegments(done), lo, Edge(s, p))
    ensures LoopSegments(ParseNodes(s, p, depth, top, done), lo, |s|)
    decreases |s| - p, 2
  {
    hide ParseOne, Within, AllSegments, SameName, OnlyDeclarations;
    if Ch(s, p) == NUL {
      WithinWiden(AllSegments(done), lo, Edge(s, p), lo, |s|);
    } else {
      var one := ParseOne(s, p, depth);
      if one.NoNode? {
        WithinWiden(AllSegments(done), lo, Edge(s, p), lo, |s|);
      } else if one.One? {
        OneNodeWithin(s, p, depth);
        if one.closing == CLOSING {
          WithinConcat(AllSegments(done), [one.node.name], lo, Edge(s, p), one.p);
        } else {
          WithinConcat(AllSegments(done), Segments(one.node), lo, Edge(s, p), Edge(s, one.p));
          AllSegmentsAppend(done, one.node);
          LoopWithin(s, one.p, depth, top, done + [one.node], lo);
        }
      }
    }
  }

  /** After a successful parse all segments of the tree lie in order in the buffer and no two share a byte, the
      terminators included; so reading one of them can disturb no other. */
  lemma SegmentsApart(s: string)
    requires ParseDocument(s).Success?
    ensures var segs := AllSegments(ParseDocument(s).nodes);
      && Within(segs, 0, |s|)
      && (forall i :: 0 <= i < |segs| ==> segs[i].start <= segs[i].end < |s|)
      && (forall i, j :: 0 <= i < j < |segs| ==> segs[i].end < segs[j].start)
  {
    hide ParseNodes;
    var p := SkipBom(s, SkipWhiteSpace(s, 0));
    var nodes := ParseDocument(s).nodes;
    NoSegments();
    WithinWiden([], 0, 0, 0, Edge(s, p));
    LoopWithin(s, p, 1, true, [], 0);
    var loop := ParseNodes(s, p, 1, true, []);
    if loop.Closed? {
      WithinDropLast(AllSegments(nodes), loop.endTag, 0, loop.p);
      WithinWiden(AllSegments(nodes), 0, loop.p, 0, |s|);
    }
    WithinApart(AllSegments(nodes), 0, |s|);
  }
}
