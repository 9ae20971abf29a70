/** XMLDocument parsing its own buffer. The end of a name is overwritten with a NUL as soon as the name is compared,
    while the parse is still going on; the text ahead of the cursor and the segments handed out stay as they were. */
module XmlDocument {
  import opened XmlText
  import opened XmlTree
  import opened XmlParser
  import opened XmlSegments

  /** The bytes of each segment are still those of the text. */
  ghost predicate Keeps(b: string, s: string, segs: seq<Segment>) {
    segs != [] ==>
      && segs[0].start <= segs[0].end <= |s| == |b| && b[segs[0].start..segs[0].end] == s[segs[0].start..segs[0].end]
      && Keeps(b, s, segs[1..])
  }

  lemma {:induction false} KeepsConcat(b: string, s: string, x: seq<Segment>, y: seq<Segment>)
    requires Keeps(b, s, x) && Keeps(b, s, y)
    ensures Keeps(b, s, x + y)
  {
    if x == [] {
      assert x + y == y;
    } else {
      assert (x + y)[1..] == x[1..] + y;
      KeepsConcat(b, s, x[1..], y);
    }
  }

  lemma {:induction false} KeepsAt(b: string, s: string, segs: seq<Segment>, i: nat)
    requires Keeps(b, s, segs) && i < |segs|
    ensures segs[i].start <= segs[i].end <= |s| == |b| && b[segs[i].start..segs[i].end] == s[segs[i].start..segs[i].end]
  {
    if i > 0 { KeepsAt(b, s, segs[1..], i - 1); }
  }

  lemma KeepsPair(b: string, s: string, p: nat, x: Segment, y: Segment)
    requires |b| == |s| && forall i :: p <= i < |s| ==> b[i] == s[i]
    requires p <= x.start <= x.end <= |s| && p <= y.start <= y.end <= |s|
    ensures Keeps(b, s, [x, y])
  {
    assert b[x.start..x.end] == s[x.start..x.end] && b[y.start..y.end] == s[y.start..y.end];
    assert [x, y][1..] == [y] && [y][1..] == [];
  }

  lemma KeepsOne(b: string, s: string, p: nat, x: Segment)
    requires |b| == |s| && forall i :: p <= i < |s| ==> b[i] == s[i]
    requires p <= x.start <= x.end <= |s|
    ensures Keeps(b, s, [x])
  {
    assert b[x.start..x.end] == s[x.start..x.end];
  }

  /** Changes outside lo..hi do not reach segments inside. */
  lemma {:induction false} KeepsFrame(b: string, b': string, s: string, segs: seq<Segment>, lo: nat, hi: nat)
    requires Keeps(b, s, segs) && Within(segs, lo, hi) && |b'| == |b|
    requires forall k :: lo <= k < hi - 1 && k < |b| ==> b'[k] == b[k]
    ensures Keeps(b', s, segs)
  {
    if segs != [] {
      KeepsFrame(b, b', s, segs[1..], segs[0].end + 1, hi);
      assert b'[segs[0].start..segs[0].end] == b[segs[0].start..segs[0].end];
    }
  }

  /** Writing a segment's terminator changes no segment's bytes. */
  lemma {:induction false} KeepsTerminator(b: string, s: string, segs: seq<Segment>, lo: nat, hi: nat, i: nat)
    requires Keeps(b, s, segs) && Within(segs, lo, hi) && i < |segs| && segs[i].end < |b|
    ensures Keeps(b[segs[i].end := NUL], s, segs)
  {
    var b' := b[segs[i].end := NUL];
    if i == 0 {
      KeepsFrame(b, b', s, segs[1..], segs[0].end + 1, hi);
      assert b'[segs[0].start..segs[0].end] == b[segs[0].start..segs[0].end];
    } else {
      WithinApart(segs, lo, hi);
      KeepsTerminator(b, s, segs[1..], segs[0].end + 1, hi, i - 1);
      assert b'[segs[0].start..segs[0].end] == b[segs[0].start..segs[0].end];
    }
  }

  lemma {:induction false} AttributeSegmentsAt(list: seq<Attribute<Segment>>, i: nat)
    requires i < |list|
    ensures |AttributeSegments(list)| == 2 * |list|
    ensures AttributeSegments(list)[2 * i] == list[i].name
  {
    AttributeSegmentsLength(list);
    if i > 0 {
      AttributeSegmentsAt(list[1..], i - 1);
      assert AttributeSegments(list)[2 * i] == AttributeSegments(list[1..])[2 * (i - 1)];
    }
  }

  lemma {:induction false} AttributeSegmentsLength(list: seq<Attribute<Segment>>)
    ensures |AttributeSegments(list)| == 2 * |list|
  {
    if list != [] { AttributeSegmentsLength(list[1..]); }
  }

  class XMLDocument {
    const charBuffer: array<char>
    var parsingDepth: nat
    var errorID: Option<XMLError>   // None is XML_SUCCESS
    var writeBOM: bool
    ghost const text: string        // what the buffer held when parsing began

    /** The copy Parse makes of its input. */
    constructor (xml: string)
      ensures fresh(charBuffer) && text == xml + [NUL] && Rest(0) && parsingDepth == 0 && errorID == None
    {
      var input := xml + [NUL];
      charBuffer := new char[|input|](i requires 0 <= i < |input| => input[i]);
      parsingDepth, errorID, writeBOM := 0, None, false;
      text := input;
    }

    /** From the cursor on, the buffer holds what it held at first. */
    ghost predicate Rest(p: nat)
      reads charBuffer
    {
      p <= |text| == charBuffer.Length && forall i :: p <= i < |text| ==> charBuffer[i] == text[i]
    }

    ghost function Bytes(): string
      reads charBuffer
    {
      charBuffer[..]
    }

    /** `*p` */
    function Peek(p: nat): char
      reads charBuffer
    {
      if p < charBuffer.Length then charBuffer[p] else NUL
    }

    // ----- scanning -----

    method SkipSpace(p: nat) returns (q: nat)
      requires Rest(p)
      ensures q == SkipWhiteSpace(text, p)
    {
      q := p;
      while IsWhiteSpace(Peek(q))
        invariant p <= q <= |text| && SkipWhiteSpace(text, q) == SkipWhiteSpace(text, p)
        decreases |text| - q
      {
        q := q + 1;
      }
    }

    /** The loop of ParseName. */
    method SkipName(p: nat) returns (q: nat)
      requires Rest(p)
      ensures q == NameEnd(text, p)
    {
      q := p;
      while IsNameChar(Peek(q))
        invariant p <= q <= |text| && NameEnd(text, q) == NameEnd(text, p)
        decreases |text| - q
      {
        q := q + 1;
      }
    }

    /** strncmp( p, lit, length ) == 0 */
    method Matches(p: nat, lit: string) returns (b: bool)
      requires Rest(p)
      ensures b == At(text, p, lit)
    {
      var k := 0;
      while k < |lit| && Peek(p + k) == lit[k]
        invariant k <= |lit| && forall j :: 0 <= j < k ==> Ch(text, p + j) == lit[j]
      {
        k := k + 1;
      }
      assert k < |lit| ==> Ch(text, p + k) != lit[k];
      return k == |lit|;
    }

    /** StrPair::ParseText: where the segment from p ends. */
    method ParseText(p: nat, endTag: string) returns (r: Option<nat>)
      requires Rest(p) && endTag != "" && NoNul(endTag)
      ensures r == FindEnd(text, p, endTag)
    {
      hide At, NoNul;
      var q := p;
      while Peek(q) != NUL
        invariant p <= q <= |text| && FindEnd(text, q, endTag) == FindEnd(text, p, endTag)
        decreases |text| - q
      {
        var found := Matches(q, endTag);
        if found {
          return Some(q);
        }
        q := q + 1;
      }
      return None;
    }

    // ----- names -----

    /** GetStr of a name: its terminator is written. The segments known so far keep their bytes. */
    method FlushName(ghost segs: seq<Segment>, ghost i: nat, name: Segment, ghost lo: nat, ghost hi: nat)
      requires |text| == charBuffer.Length && Keeps(Bytes(), text, segs) && Within(segs, lo, hi) && i < |segs|
      requires name == segs[i] && name.end < |text|
      modifies charBuffer
      ensures Keeps(Bytes(), text, segs)
      ensures forall k :: 0 <= k < |text| && k != name.end ==> charBuffer[k] == old(charBuffer[k])
      ensures charBuffer[name.end] == NUL
    {
      KeepsTerminator(Bytes(), text, segs, lo, hi, i);
      charBuffer[name.end] := NUL;
      assert Bytes() == old(Bytes())[name.end := NUL];
    }

    /** `Attribute( attrib->Name() )` with the attribute not yet linked in: whether its name is taken. Compares the
        C strings in the buffer. */
    method HasAttribute(list: seq<Attribute<Segment>>, a: Attribute<Segment>, ghost lo: nat,
                        ghost p: nat) returns (found: bool)
      requires Rest(p) && lo <= p && Within(AttributeSegments(list + [a]), lo, p)
      requires a.name.start <= a.name.end <= |text|
      requires Keeps(Bytes(), text, AttributeSegments(list + [a]))
      modifies charBuffer
      ensures found == NameTaken(text, list, a.name)
      ensures Rest(p) && Keeps(Bytes(), text, AttributeSegments(list + [a]))
      ensures forall k :: 0 <= k < lo ==> charBuffer[k] == old(charBuffer[k])
    {
      hide AttributeSegments, Within, Keeps;
      ghost var all := list + [a];
      ghost var segs := AttributeSegments(all);
      AttributeSegmentsAt(all, |list|);
      WithinApart(segs, lo, p);
      FlushName(segs, 2 * |list|, a.name, lo, p);
      for i := 0 to |list|
        invariant Rest(p) && Keeps(Bytes(), text, segs)
        invariant forall k :: 0 <= k < lo ==> charBuffer[k] == old(charBuffer[k])
        invariant forall j :: 0 <= j < i ==>
          !(list[j].name.start <= list[j].name.end <= |text| && Raw(text, list[j].name) == Raw(text, a.name))
      {
        AttributeSegmentsAt(all, i);
        FlushName(segs, 2 * i, list[i].name, lo, p);
        KeepsAt(Bytes(), text, segs, 2 * i);
        KeepsAt(Bytes(), text, segs, 2 * |list|);
        if charBuffer[list[i].name.start..list[i].name.end] == charBuffer[a.name.start..a.name.end] {
          return true;
        }
      }
      return false;
    }

    // ----- tags -----

    /** XMLAttribute::ParseDeep at a name start character. */
    method ParseAttributeDeep(p: nat) returns (r: OneAttribute)
      requires Rest(p) && p < |text| && IsNameStartChar(text[p])
      ensures r == ParseAttribute(text, p)
    {
      hide FindEnd, SkipWhiteSpace, NameEnd;
      var e := SkipName(p);
      if Peek(e) == NUL {
        return NoAttribute;
      }
      var q := SkipSpace(e);
      if Peek(q) != '=' {
        return NoAttribute;
      }
      q := SkipSpace(q + 1);
      if Peek(q) != '\"' && Peek(q) != '\'' {
        return NoAttribute;
      }
      var close := ParseText(q + 1, [Peek(q)]);
      match close
      case None => return NoAttribute;
      case Some(end) =>
        return OneAttribute(XmlTree.Attribute(Segment(p, e, NAME), Segment(q + 1, end, ESCAPED)), end + 1);
    }

    /** Where the loop of ParseAttributes is, having read `list`. */
    ghost predicate Reading(p: nat, q: nat, list: seq<Attribute<Segment>>)
      reads charBuffer
    {
      && p <= q && Rest(q) && Within(AttributeSegments(list), p, q) && Keeps(Bytes(), text, AttributeSegments(list))
      && ParseAttributes(text, q, list) == ParseAttributes(text, p, [])
    }

    /** What ParseAttributes ends with. */
    ghost predicate AttributesRead(p: nat, q: nat, list: seq<Attribute<Segment>>, closed: bool)
      reads this, charBuffer
      requires p <= |text|
    {
      match ParseAttributes(text, p, [])
      case BadAttributes(e) => errorID == Some(e)
      case Attributes(l, q', c) =>
        && errorID == None && list == l && q == q' && closed == c
        && Rest(q) && Keeps(Bytes(), text, AttributeSegments(list)) && Within(AttributeSegments(list), p, q)
    }

    /** XMLElement::ParseAttributes. On an error the document's error is set. */
    method ParseTagAttributes(p: nat) returns (list: seq<Attribute<Segment>>, q: nat, closed: bool)
      requires Rest(p) && errorID == None
      modifies charBuffer, this`errorID
      ensures AttributesRead(p, q, list, closed)
      ensures forall k :: 0 <= k < p ==> charBuffer[k] == old(charBuffer[k])
    {
      var more := true;
      list, q, closed := [], p, false;
      NothingRead(p);
      while more
        invariant p <= |text|
        invariant if more then Reading(p, q, list) && errorID == None else AttributesRead(p, q, list, closed)
        invariant forall k :: 0 <= k < p ==> charBuffer[k] == old(charBuffer[k])
        decreases more, |text| - q
      {
        hide Reading, AttributesRead;
        list, q, more, closed := AttributesTurn(list, q, p);
      }
    }

    /** The loop body. */
    method AttributesTurn(list: seq<Attribute<Segment>>, q: nat, ghost p: nat)
      returns (list': seq<Attribute<Segment>>, q': nat, more: bool, closed: bool)
      requires Reading(p, q, list) && errorID == None
      modifies charBuffer, this`errorID
      ensures
        if more then Reading(p, q', list') && errorID == None && q < q' <= |text|
        else AttributesRead(p, q', list', closed)
      ensures forall k :: 0 <= k < p ==> charBuffer[k] == old(charBuffer[k])
    {
      hide Within, Keeps, AttributeSegments, ParseAttributes, ParseAttribute, NameTaken, SkipWhiteSpace;
      AttributesUnfold(text, q, list);
      var at := SkipSpace(q);
      list', q', more, closed := list, at, false, false;
      if Peek(at) == NUL {
        errorID := Some(ParsingElement);
      } else if IsNameStartChar(Peek(at)) {
        list', q' := ParseOneAttribute(list, at, q, p);
        more := errorID == None;
      } else if Peek(at) == '>' {
        q' := at + 1;
        WithinWiden(AttributeSegments(list), p, q, p, q');
      } else if Peek(at) == '/' && Peek(at + 1) == '>' {
        q', closed := at + 2, true;
        WithinWiden(AttributeSegments(list), p, q, p, q');
      } else {
        errorID := Some(ParsingElement);
      }
    }

    lemma NothingRead(p: nat)
      requires Rest(p)
      ensures Reading(p, p, [])
    {
      NoSegments();
    }

    static lemma AttributesUnfold(s: string, p: nat, list: seq<Attribute<Segment>>)
      requires p <= |s|
      ensures var q, r := SkipWhiteSpace(s, p), ParseAttributes(s, p, list);
        if Ch(s, q) == NUL then r == BadAttributes(ParsingElement)
        else if IsNameStartChar(s[q]) then
          var one := ParseAttribute(s, q);
          r == if one.NoAttribute? || NameTaken(s, list, one.attribute.name) then BadAttributes(ParsingAttribute)
               else ParseAttributes(s, one.p, list + [one.attribute])
        else if s[q] == '>' then r == Attributes(list, q + 1, false)
        else if s[q] == '/' && Ch(s, q + 1) == '>' then r == Attributes(list, q + 2, true)
        else r == BadAttributes(ParsingElement)
    {
      hide ParseAttribute, NameTaken, SkipWhiteSpace;
    }

    /** The branch of the loop for a name start character. */
    method ParseOneAttribute(list: seq<Attribute<Segment>>, at: nat, ghost q: nat, ghost p: nat)
      returns (list': seq<Attribute<Segment>>, q': nat)
      requires Reading(p, q, list) && errorID == None && at == SkipWhiteSpace(text, q) && Ch(text, at) != NUL
      requires IsNameStartChar(text[at])
      modifies charBuffer, this`errorID
      ensures errorID == None ==> Reading(p, q', list') && q < q'
      ensures errorID != None ==> ParseAttributes(text, p, []) == BadAttributes(errorID.value)
      ensures forall k :: 0 <= k < p ==> charBuffer[k] == old(charBuffer[k])
    {
      hide Within, Keeps, AttributeSegments, ParseAttributes, ParseAttribute, NameTaken, SkipWhiteSpace;
      AttributesUnfold(text, q, list);
      list', q' := list, at;
      var one := ParseAttributeDeep(at);
      if one.NoAttribute? {
        errorID := Some(ParsingAttribute);
        return;
      }
      var taken := TakeAttribute(list, one.attribute, q, one.p, p);
      if taken {
        errorID := Some(ParsingAttribute);
        return;
      }
      list', q' := list + [one.attribute], one.p;
    }

    /** The part of ParseAttributes that looks for another attribute of the same name. */
    method TakeAttribute(list: seq<Attribute<Segment>>, a: Attribute<Segment>, ghost q: nat, ghost q': nat,
                         ghost lo: nat)
      returns (taken: bool)
      requires lo <= q <= q' && Rest(q) && Within(AttributeSegments(list), lo, q)
      requires Keeps(Bytes(), text, AttributeSegments(list))
      requires q <= a.name.start <= a.name.end < a.value.start <= a.value.end < q' <= |text|
      modifies charBuffer
      ensures taken == NameTaken(text, list, a.name)
      ensures Rest(q') && Within(AttributeSegments(list + [a]), lo, q')
      ensures Keeps(Bytes(), text, AttributeSegments(list + [a]))
      ensures forall k :: 0 <= k < lo ==> charBuffer[k] == old(charBuffer[k])
    {
      hide NameTaken, AttributeSegments;
      ghost var pair := [a.name, a.value];
      PairWithin(a.name, a.value, q, q');
      AttributeSegmentsAppend(list, a);
      WithinConcat(AttributeSegments(list), pair, lo, q, q');
      KeepsPair(Bytes(), text, q, a.name, a.value);
      KeepsConcat(Bytes(), text, AttributeSegments(list), pair);
      taken := HasAttribute(list, a, lo, q');
    }

    // ----- nodes -----

    /** The ParseDeep of a leaf: an error is set when the end mark is missing. */
    method ParseLeaf(start: nat, endTag: string, error: XMLError, kind: LeafKind) returns (r: One)
      requires Rest(start) && endTag != "" && NoNul(endTag) && errorID == None
      modifies this`errorID
      ensures r == Leaf(text, start, endTag, error, kind)
      ensures errorID == if r.Fail? then Some(error) else None
      ensures r.Fail? ==> r.error == error
    {
      hide FindEnd, At;
      var e := ParseText(start, endTag);
      match e
      case None =>
        errorID := Some(error);
        return Fail(error);
      case Some(end) => return One(MakeLeaf(kind, Segment(start, end, VERBATIM)), OPEN, None, end + |endTag|);
    }

    /** Identify, and the ParseDeep of every node but elements. A null pointer without an error is Parsing. */
    method ParseSimple(p: nat) returns (r: Identified)
      requires Rest(p) && errorID == None
      modifies this`errorID
      ensures r == Identify(text, p)
      ensures errorID == if r.Simple? && r.one.Fail? && r.one.error != Parsing then Some(r.one.error) else None
    {
      hide FindEnd, At, SkipWhiteSpace;
      var q := SkipSpace(p);
      if Peek(q) == NUL {
        return Simple(NoNode);
      }
      if Peek(q) != '<' {
        var e := ParseText(p, "<");
        if e == None {
          errorID := Some(ParsingText);
          return Simple(Fail(ParsingText));
        }
        if Peek(e.value + 1) == NUL {
          return Simple(Fail(Parsing));
        }
        return Simple(One(Text(Segment(p, e.value, ESCAPED), false), OPEN, None, e.value));
      }
      r := ParseMarkup(p, q);
    }

    method ParseMarkup(ghost p: nat, q: nat) returns (r: Identified)
      requires Rest(p) && errorID == None && SkipWhiteSpace(text, p) == q && Ch(text, q) == '<'
      modifies this`errorID
      ensures r == Identify(text, p)
      ensures errorID == if r.Simple? && r.one.Fail? && r.one.error != Parsing then Some(r.one.error) else None
    {
      hide FindEnd, At, SkipWhiteSpace, Leaf;
      var one: One;
      if Peek(q + 1) == '?' {
        one := ParseLeaf(q + 2, "?>", ParsingDeclaration, DeclarationLeaf);
        return Simple(one);
      }
      var comment := Matches(q, "<!--");
      if comment {
        AtFits(text, q, "<!--");
        one := ParseLeaf(q + 4, "-->", ParsingComment, CommentLeaf);
        return Simple(one);
      }
      var cdata := Matches(q, "<![CDATA[");
      if cdata {
        AtFits(text, q, "<![CDATA[");
        one := ParseLeaf(q + 9, "]]>", ParsingCData, CDataLeaf);
        return Simple(one);
      }
      if Peek(q + 1) == '!' {
        one := ParseLeaf(q + 2, ">", ParsingUnknown, UnknownLeaf);
        return Simple(one);
      }
      return TagAt(q + 1);
    }

    /** The bytes of a node that was read, and of the end tag read for it, are still there, and so is the rest. */
    ghost predicate Kept(one: One)
      requires one.One?
      reads charBuffer
    {
      Rest(one.p) && Keeps(Bytes(), text, Segments(one.node) + EndTags(one.endTag))
    }

    static function EndTags(endTag: Option<Segment>): seq<Segment> {
      match endTag case None => [] case Some(tag) => [tag]
    }

    ghost predicate ElementRead(t: nat, d: nat, r: One)
      reads this, charBuffer
      requires t <= |text| && d < MAX_ELEMENT_DEPTH
    {
      && r == ParseElement(text, t, d) && parsingDepth == d
      && (r.Fail? ==> errorID == Some(r.error) || (r.error == Parsing && errorID == None))
      && (r.One? ==> errorID == None && Kept(r))
    }

    ghost predicate ChildrenRead(p: nat, d: nat, top: bool, r: Loop)
      reads this, charBuffer
      requires p <= |text| && d < MAX_ELEMENT_DEPTH
    {
      && r == ParseDeep(text, p, d, top) && parsingDepth == d
      && match r
         case Failed(e) => errorID == Some(e)
         case Ended(nodes) => errorID == None && |Bytes()| == |text| && Keeps(Bytes(), text, AllSegments(nodes))
         case Closed(nodes, endTag, q) =>
           errorID == None && Rest(q) && Keeps(Bytes(), text, AllSegments(nodes) + [endTag])
    }

    /** XMLElement::ParseDeep up to the end of the tag. */
    method ParseTag(t: nat) returns (r: TagRead)
      requires Rest(t) && errorID == None
      modifies charBuffer, this`errorID
      ensures r == ReadTag(text, t)
      ensures r.BadTag? ==> errorID == Some(r.error) || (r.error == Parsing && errorID == None)
      ensures r.Tag? ==> errorID == None && Rest(r.p) && Keeps(Bytes(), text, [r.name] + AttributeSegments(r.list))
      ensures forall k :: 0 <= k < t ==> charBuffer[k] == old(charBuffer[k])
    {
      hide Keeps, AttributeSegments, SkipWhiteSpace, NameEnd, ParseAttributes, Within;
      var q := SkipSpace(t);
      var slash := Peek(q) == '/';
      var n := if slash then q + 1 else q;
      if !IsNameStartChar(Peek(n)) {
        return BadTag(Parsing);
      }
      var e := SkipName(n);
      var list, q', closed := ParseTagAttributes(e);
      if errorID != None {
        return BadTag(errorID.value);
      }
      var name := Segment(n, e, NAME);
      NameKept(name, list);
      return Tag(name, list, if closed then CLOSED else if slash then CLOSING else OPEN, q');
    }

    lemma NameKept(name: Segment, list: seq<Attribute<Segment>>)
      requires name.start <= name.end <= |text| == charBuffer.Length
      requires forall k :: name.start <= k < name.end ==> charBuffer[k] == text[k]
      requires Keeps(Bytes(), text, AttributeSegments(list))
      ensures Keeps(Bytes(), text, [name] + AttributeSegments(list))
    {
      assert Bytes()[name.start..name.end] == text[name.start..name.end];
      assert ([name] + AttributeSegments(list))[1..] == AttributeSegments(list);
    }

    /** XMLElement::ParseDeep, after the '<'. */
    method ParseElementDeep(t: nat) returns (r: One)
      requires Rest(t) && errorID == None && parsingDepth < MAX_ELEMENT_DEPTH
      modifies charBuffer, this`errorID, this`parsingDepth
      ensures ElementRead(t, old(parsingDepth), r)
      ensures forall k :: 0 <= k < t ==> charBuffer[k] == old(charBuffer[k])
      decreases |text| - t, 1
    {
      hide Keeps, ReadTag, ParseDeep, Within, AttributeSegments, AllSegments;
      var tag := ParseTag(t);
      match tag
      case BadTag(error) => return Fail(error);
      case Tag(name, list, closing, q) =>
        ghost var head := [name] + AttributeSegments(list);
        if Peek(q) == NUL || closing != OPEN {
          r := One(Element(name, list, []), closing, None, q);
          LeafElement(name, list, closing, q);
          return;
        }
        ghost var before := Bytes();
        TagWithin(text, t);
        var loop := ParseChildren(q, false);
        match loop
        case Ended(_) => return Fail(Parsing);
        case Failed(error) => return Fail(error);
        case Closed(nodes, endTag, q') =>
          KeepsFrame(before, Bytes(), text, head, t, q);
          KeepsConcat(Bytes(), text, head, AllSegments(nodes) + [endTag]);
          r := One(Element(name, list, nodes), OPEN, Some(endTag), q');
          assert head + (AllSegments(nodes) + [endTag]) == Segments(r.node) + EndTags(r.endTag);
    }

    lemma LeafElement(name: Segment, list: seq<Attribute<Segment>>, closing: ClosingType, q: nat)
      requires Rest(q) && Keeps(Bytes(), text, [name] + AttributeSegments(list))
      ensures Kept(One(Element(name, list, []), closing, None, q))
    {
      NoSegments();
      var head := [name] + AttributeSegments(list);
      assert head + [] + [] == head;
    }

    /** XMLNode::ParseDeep. */
    method ParseChildren(p: nat, top: bool) returns (r: Loop)
      requires Rest(p) && errorID == None && parsingDepth < MAX_ELEMENT_DEPTH
      modifies charBuffer, this`errorID, this`parsingDepth
      ensures ChildrenRead(p, old(parsingDepth), top, r)
      ensures forall k :: 0 <= k < p ==> charBuffer[k] == old(charBuffer[k])
      decreases |text| - p, 3
    {
      parsingDepth := parsingDepth + 1;
      if parsingDepth == MAX_ELEMENT_DEPTH {
        errorID := Some(ElementDepthExceeded);
      }
      if errorID != None {
        parsingDepth := parsingDepth - 1;
        return Failed(errorID.value);
      }
      r := ParseSiblings(p, top);
      parsingDepth := parsingDepth - 1;
    }

    /** XMLDocument::Parse. The parse works on the changing buffer and yields what ParseDocument yields on the text it
        held at first; the depth counter is back at its start; and every segment of the tree still has its bytes. */
    method Parse() returns (r: Document)
      requires Rest(0) && errorID == None && parsingDepth == 0
      modifies charBuffer, this`errorID, this`parsingDepth, this`writeBOM
      ensures r == ParseDocument(text) && parsingDepth == 0 && writeBOM == BomRead(text)
      ensures r.Error? ==> errorID == Some(r.error)
      ensures r.Success? ==> errorID == None && |Bytes()| == |text| && Keeps(Bytes(), text, AllSegments(r.nodes))
    {
      hide ParseDeep, SkipWhiteSpace, Keeps;
      var p := SkipSpace(0);
      writeBOM := Peek(p) == '\U{EF}' && Peek(p + 1) == '\U{BB}' && Peek(p + 2) == '\U{BF}';
      if writeBOM { p := p + 3; }
      assert p == SkipBom(text, SkipWhiteSpace(text, 0));
      if Peek(p) == NUL {
        errorID := Some(EmptyDocument);
        return Error(EmptyDocument);
      }
      var loop := ParseChildren(p, true);
      match loop
      case Ended(nodes) => return Success(nodes);
      case Closed(nodes, endTag, _) =>
        KeepsDropLast(Bytes(), text, AllSegments(nodes), endTag);
        return Success(nodes);
      case Failed(error) => return Error(error);
    }

    // ----- the loop of XMLNode::ParseDeep -----

    ghost predicate SiblingsRead(p: nat, d: nat, top: bool, r: Loop)
      reads this, charBuffer
      requires p <= |text| && d < MAX_ELEMENT_DEPTH
    {
      && r == ParseNodes(text, p, d, top, []) && parsingDepth == d
      && match r
         case Failed(e) => errorID == Some(e)
         case Ended(nodes) => errorID == None && |Bytes()| == |text| && Keeps(Bytes(), text, AllSegments(nodes))
         case Closed(nodes, endTag, q) =>
           errorID == None && Rest(q) && Keeps(Bytes(), text, AllSegments(nodes) + [endTag])
    }

    /** The loop has inserted `done` and is at q. */
    ghost predicate Going(p: nat, q: nat, d: nat, top: bool, done: seq<Node<Segment>>)
      reads this, charBuffer
      requires p <= |text| && d < MAX_ELEMENT_DEPTH
    {
      && p <= q && Rest(q) && errorID == None && parsingDepth == d
      && ParseNodes(text, q, d, top, done) == ParseNodes(text, p, d, top, [])
      && Within(AllSegments(done), p, Edge(text, q)) && Keeps(Bytes(), text, AllSegments(done))
    }

    lemma NothingDone(p: nat, top: bool)
      requires Rest(p) && errorID == None && parsingDepth < MAX_ELEMENT_DEPTH
      ensures Going(p, p, parsingDepth, top, [])
    {
      NoSegments();
    }

    method ParseSiblings(p: nat, top: bool) returns (r: Loop)
      requires Rest(p) && errorID == None && parsingDepth < MAX_ELEMENT_DEPTH
      modifies charBuffer, this`errorID, this`parsingDepth
      ensures SiblingsRead(p, old(parsingDepth), top, r)
      ensures forall k :: 0 <= k < p ==> charBuffer[k] == old(charBuffer[k])
      decreases |text| - p, 2
    {
      ghost var d := parsingDepth;
      var done, q, more := [], p, true;
      NothingDone(p, top);
      r := Ended([]);
      while more
        invariant p <= q && (if more then Going(p, q, d, top, done) else SiblingsRead(p, d, top, r))
        invariant forall k :: 0 <= k < p ==> charBuffer[k] == old(charBuffer[k])
        decreases more, |text| - q
      {
        hide SiblingsRead, Keeps, Within, ParseNodes;
        done, q, more, r := SiblingsTurn(p, q, d, top, done);
      }
    }

    /** Identify and the ParseDeep of the node. */
    method ParseNode(q: nat) returns (one: One)
      requires Rest(q) && errorID == None && parsingDepth < MAX_ELEMENT_DEPTH
      modifies charBuffer, this`errorID, this`parsingDepth
      ensures one == ParseOne(text, q, old(parsingDepth)) && parsingDepth == old(parsingDepth)
      ensures one.Fail? ==> errorID == Some(one.error) || (one.error == Parsing && errorID == None)
      ensures one.One? ==> errorID == None && Kept(one)
      ensures one.NoNode? ==> errorID == None
      ensures forall k :: 0 <= k < q ==> charBuffer[k] == old(charBuffer[k])
      decreases |text| - q, 0
    {
      hide Identify, ParseElement, Keeps, Segments;
      var found := ParseSimple(q);
      match found
      case Simple(node) =>
        one := node;
        if one.One? { SimpleKept(q, one); }
      case TagAt(t) => one := ParseElementDeep(t);
    }

    lemma SimpleKept(q: nat, one: One)
      requires Rest(q) && Identify(text, q) == Simple(one) && one.One?
      ensures Kept(one)
    {
      hide Identify;
      SimpleWithin(text, q);
      var seg := one.node.value;
      assert Segments(one.node) == [seg] && [seg] + [] == [seg];
      KeepsOne(Bytes(), text, q, seg);
    }

    /** The loop body. */
    method SiblingsTurn(ghost p: nat, q: nat, ghost d: nat, top: bool, done: seq<Node<Segment>>)
      returns (done': seq<Node<Segment>>, q': nat, more: bool, r: Loop)
      requires p <= |text| && d < MAX_ELEMENT_DEPTH && Going(p, q, d, top, done)
      modifies charBuffer, this`errorID, this`parsingDepth
      ensures p <= q' && if more then Going(p, q', d, top, done') && q < q' <= |text| else SiblingsRead(p, d, top, r)
      ensures forall k :: 0 <= k < p ==> charBuffer[k] == old(charBuffer[k])
      decreases |text| - q, 1
    {
      hide Keeps, Within, ParseNodes, ParseOne, AllSegments, SameName;
      NodesUnfold(text, q, d, top, done);
      done', q', more, r := done, q, false, Ended(done);
      if Peek(q) == NUL {
        return;
      }
      ghost var before := Bytes();
      var one := ParseNode(q);
      KeepsFrame(before, Bytes(), text, AllSegments(done), p, Edge(text, q));
      match one
      case NoNode => r := Ended(done);
      case Fail(error) =>
        if errorID == None {
          errorID := Some(Parsing);
        }
        r := Failed(error);
      case One(node, closing, endTag, next) =>
        OneNodeWithin(text, q, d);
        if node.Declaration? && !(top && OnlyDeclarations(done)) {
          errorID := Some(ParsingDeclaration);
          r := Failed(ParsingDeclaration);
        } else if closing == CLOSING {
          EndTagKept(one, AllSegments(done));
          r := Closed(done, node.name, next);
        } else {
          var bad := BadElement(one, AllSegments(done), p, q, d);
          if bad {
            errorID := Some(MismatchedElement);
            r := Failed(MismatchedElement);
          } else {
            more, done', q' := true, done + [node], next;
            AllSegmentsAppend(done, node);
          }
        }
    }

    static lemma NodesUnfold(s: string, p: nat, depth: nat, top: bool, done: seq<Node<Segment>>)
      requires p <= |s| && depth < MAX_ELEMENT_DEPTH
      ensures var r, one := ParseNodes(s, p, depth, top, done), ParseOne(s, p, depth);
        if Ch(s, p) == NUL || one.NoNode? then r == Ended(done)
        else if one.Fail? then r == Failed(one.error)
        else if one.node.Declaration? && !(top && OnlyDeclarations(done)) then r == Failed(ParsingDeclaration)
        else if one.closing == CLOSING then r == Closed(done, one.node.name, one.p)
        else if one.node.Element? && Mismatch(s, one.node.name, one.closing, one.endTag) then
          r == Failed(MismatchedElement)
        else r == ParseNodes(s, one.p, depth, top, done + [one.node])
    {
      hide ParseOne, SameName, OnlyDeclarations;
    }

    lemma EndTagKept(one: One, before: seq<Segment>)
      requires one.One? && Kept(one) && one.node.Element? && Keeps(Bytes(), text, before)
      ensures Keeps(Bytes(), text, before + [one.node.name])
    {
      hide Keeps;
      FirstKept(Bytes(), text, one.node, EndTags(one.endTag));
      KeepsConcat(Bytes(), text, before, [one.node.name]);
    }

    static lemma FirstKept(b: string, s: string, n: Node<Segment>, tail: seq<Segment>)
      requires n.Element? && Keeps(b, s, Segments(n) + tail)
      ensures Keeps(b, s, [n.name])
    {
      assert (Segments(n) + tail)[0] == n.name;
    }

    /** The checks of the loop on a node that was read: whether its end tag is missing or does not match. The names of
        both tags are read, which ends them with a NUL each. */
    method BadElement(one: One, ghost before: seq<Segment>, ghost p: nat, ghost q: nat,
                      ghost d: nat) returns (bad: bool)
      requires q <= |text| && d < MAX_ELEMENT_DEPTH && one == ParseOne(text, q, d) && one.One? && Kept(one)
      requires Within(before, p, Edge(text, q)) && p <= Edge(text, q) && Keeps(Bytes(), text, before)
      modifies charBuffer
      ensures bad == (one.node.Element? && Mismatch(text, one.node.name, one.closing, one.endTag))
      ensures Rest(one.p) && Within(before + Segments(one.node), p, Edge(text, one.p))
      ensures Keeps(Bytes(), text, before + Segments(one.node))
      ensures forall k :: 0 <= k < p ==> charBuffer[k] == old(charBuffer[k])
    {
      hide Keeps, Within, ParseOne, Segments, SameName;
      OneNodeWithin(text, q, d);
      ghost var segs := Segments(one.node);
      WithinConcat(before, segs, p, Edge(text, q), Edge(text, one.p));
      KeepsConcat(Bytes(), text, before, segs + EndTags(one.endTag));
      if one.endTag == None {
        assert before + (segs + []) == before + segs;
        return one.node.Element? && one.closing == OPEN;
      }
      ghost var all := before + (segs + [one.endTag.value]);
      WithinConcat(before, segs + [one.endTag.value], p, Edge(text, q), one.p);
      ghost var i := |before|;
      ElementHasTag(q, d, one);
      assert all[i] == one.node.name && all[|all| - 1] == one.endTag.value;
      var same := SameTag(all, i, one.node.name, one.endTag.value, p, one.p);
      assert all == (before + segs) + [one.endTag.value];
      KeepsDropLast(Bytes(), text, before + segs, one.endTag.value);
      return !same;
    }

    lemma ElementHasTag(q: nat, d: nat, one: One)
      requires q <= |text| && d < MAX_ELEMENT_DEPTH && one == ParseOne(text, q, d) && one.One? && one.endTag.Some?
      ensures one.node.Element? && one.closing == OPEN
      ensures |Segments(one.node)| > 0 && Segments(one.node)[0] == one.node.name
    {
      hide Identify, ReadTag, ParseDeep;
    }

    /** StringEqual( endTag.GetStr(), ele->Name() ) */
    method SameTag(ghost all: seq<Segment>, ghost i: nat, name: Segment, tag: Segment, ghost p: nat,
                   ghost q: nat) returns (same: bool)
      requires Rest(q) && Within(all, p, q) && Keeps(Bytes(), text, all)
      requires i < |all| && all[i] == name && all[|all| - 1] == tag
      modifies charBuffer
      ensures same == SameName(text, tag, name)
      ensures Rest(q) && Keeps(Bytes(), text, all)
      ensures forall k :: 0 <= k < p ==> charBuffer[k] == old(charBuffer[k])
    {
      hide Keeps, Within;
      WithinApart(all, p, q);
      FlushName(all, |all| - 1, tag, p, q);
      FlushName(all, i, name, p, q);
      KeepsAt(Bytes(), text, all, i);
      KeepsAt(Bytes(), text, all, |all| - 1);
      same := charBuffer[tag.start..tag.end] == charBuffer[name.start..name.end];
    }
  }

  lemma {:induction false} KeepsDropLast(b: string, s: string, segs: seq<Segment>, last: Segment)
    requires Keeps(b, s, segs + [last])
    ensures Keeps(b, s, segs)
  {
    if segs != [] {
      assert (segs + [last])[1..] == segs[1..] + [last];
      KeepsDropLast(b, s, segs[1..], last);
    }
  }
}
