/** The syntax of tags: which texts the parser takes for attributes and tags, and what it makes of them. White space and
    names are told by the characters themselves, listed one by one. */
module Spelling {
  import opened XmlText
  import opened Decoding
  import opened XmlTree
  import opened XmlParser
  import XmlRoundTrip

  // ----- characters -----

  const SPACES: string := " \t\n\U{0B}\U{0C}\r"
  const LOWER: string := "abcdefghijklmnopqrstuvwxyz"
  const UPPER: string := "ABCDEFGHIJKLMNOPQRSTUVWXYZ"
  const MORE: string := "0123456789.-"

  predicate Spaces(t: string) { forall c :: c in t ==> c in SPACES }

  predicate StartsName(c: char) { c in LOWER || c in UPPER || c == ':' || c == '_' || c as int >= 0x80 }

  predicate InName(c: char) { StartsName(c) || c in MORE }

  predicate IsName(t: string) { t != "" && StartsName(t[0]) && forall c :: c in t ==> InName(c) }

  lemma LetterAt(i: nat)
    requires i < 26
    ensures LOWER[i] == 'a' + i as char && UPPER[i] == 'A' + i as char
  {
    assert i == 0 || i == 1 || i == 2 || i == 3 || i == 4 || i == 5 || i == 6 || i == 7 || i == 8 || i == 9 || i == 10
        || i == 11 || i == 12 || i == 13 || i == 14 || i == 15 || i == 16 || i == 17 || i == 18 || i == 19 || i == 20
        || i == 21 || i == 22 || i == 23 || i == 24 || i == 25;
  }

  lemma Letters(c: char)
    ensures c in LOWER <==> 'a' <= c <= 'z'
    ensures c in UPPER <==> 'A' <= c <= 'Z'
  {
    if 'a' <= c <= 'z' {
      LetterAt((c - 'a') as nat);
      assert c == LOWER[(c - 'a') as nat];
    }
    if 'A' <= c <= 'Z' {
      LetterAt((c - 'A') as nat);
      assert c == UPPER[(c - 'A') as nat];
    }
    forall i | 0 <= i < 26 ensures 'a' <= LOWER[i] <= 'z' && 'A' <= UPPER[i] <= 'Z' { LetterAt(i); }
  }

  lemma MoreInNames(c: char)
    ensures c in MORE <==> '0' <= c <= '9' || c == '.' || c == '-'
  {
    assert MORE[0] == '0' && MORE[1] == '1' && MORE[2] == '2' && MORE[3] == '3' && MORE[4] == '4' && MORE[5] == '5'
        && MORE[6] == '6' && MORE[7] == '7' && MORE[8] == '8' && MORE[9] == '9' && MORE[10] == '.' && MORE[11] == '-';
  }

  lemma SpaceIs(c: char)
    ensures c in SPACES <==> c == ' ' || c == '\t' || c == LF || c == '\U{0B}' || c == '\U{0C}' || c == CR
  {
    assert SPACES[0] == ' ' && SPACES[1] == '\t' && SPACES[2] == LF && SPACES[3] == '\U{0B}' && SPACES[4] == '\U{0C}'
        && SPACES[5] == CR;
  }

  /** The character tests of the parser. */
  lemma Classes(c: char)
    ensures IsWhiteSpace(c) <==> c in SPACES
    ensures IsNameStartChar(c) <==> StartsName(c)
    ensures IsNameChar(c) <==> InName(c)
  {
    SpaceIs(c);
    Letters(c);
    MoreInNames(c);
  }

  // ----- runs of characters -----

  lemma {:induction false} SpacesSkipped(s: string, p: nat, t: string)
    requires At(s, p, t) && Spaces(t) && p + |t| <= |s| && Ch(s, p + |t|) !in SPACES
    ensures SkipWhiteSpace(s, p) == p + |t|
    decreases |t|
  {
    hide Spaces;
    if t != "" {
      assert t[0] in SPACES && Spaces(t[1..]) by { SpacesTail(t); }
      AtHead(s, p, t);
      Classes(t[0]);
      AtParts(s, p, [t[0]], t[1..]);
      SpacesSkipped(s, p + 1, t[1..]);
    } else {
      Classes(Ch(s, p));
    }
  }

  lemma SpacesTail(t: string)
    requires t != "" && Spaces(t)
    ensures t[0] in SPACES && Spaces(t[1..])
  {
    assert t[0] in t;
    forall c | c in t[1..] ensures c in SPACES { assert c in t; }
  }

  lemma SkippedAreSpaces(s: string, p: nat)
    requires p <= |s|
    ensures Spaces(s[p..SkipWhiteSpace(s, p)]) && Ch(s, SkipWhiteSpace(s, p)) !in SPACES
  {
    var t := s[p..SkipWhiteSpace(s, p)];
    forall c | c in t ensures c in SPACES {
      var i :| 0 <= i < |t| && t[i] == c;
      assert s[p + i] == c;
      Classes(c);
    }
    Classes(Ch(s, SkipWhiteSpace(s, p)));
  }

  lemma {:induction false} NameSpelled(s: string, p: nat, t: string)
    requires At(s, p, t) && (forall c :: c in t ==> InName(c)) && p + |t| <= |s| && !InName(Ch(s, p + |t|))
    ensures NameEnd(s, p) == p + |t|
    decreases |t|
  {
    hide InName;
    if t != "" {
      AtHead(s, p, t);
      assert t[0] in t && forall c :: c in t[1..] ==> c in t;
      Classes(t[0]);
      AtParts(s, p, [t[0]], t[1..]);
      NameSpelled(s, p + 1, t[1..]);
    } else {
      Classes(Ch(s, p));
    }
  }

  /** The name that the parser takes is one, and it goes on as long as there are name characters. */
  lemma NameIsOne(s: string, p: nat)
    requires p < |s| && IsNameStartChar(s[p])
    ensures IsName(s[p..NameEnd(s, p)]) && !InName(Ch(s, NameEnd(s, p)))
  {
    hide InName, StartsName;
    var t := s[p..NameEnd(s, p)];
    Classes(s[p]);
    assert t != "" && t[0] == s[p];
    forall c | c in t ensures InName(c) {
      var i :| 0 <= i < |t| && t[i] == c;
      assert s[p + i] == c;
      Classes(c);
    }
    Classes(Ch(s, NameEnd(s, p)));
  }

  // ----- attributes -----

  /** An attribute as it may be written: white space before it and around the '=', a value in quotes of either kind. */
  datatype Written = Written(before: string, name: string, gap: string, space: string, quote: char, value: string)

  function Text(a: Written): string {
    a.before + (a.name + (a.gap + ("=" + (a.space + ([a.quote] + (a.value + [a.quote]))))))
  }

  /** The value holds neither NUL nor the quote it stands in. */
  predicate Proper(a: Written) {
    && Spaces(a.before) && IsName(a.name) && Spaces(a.gap) && Spaces(a.space)
    && (a.quote == '\"' || a.quote == '\'') && NoNul(a.value) && a.quote !in a.value
  }

  /** The attribute that stands at p. */
  function PartsAt(p: nat, a: Written): Attribute<Segment> {
    var n := p + |a.before|;
    var v := n + |a.name| + |a.gap| + 1 + |a.space| + 1;
    Attribute(Segment(n, n + |a.name|, NAME), Segment(v, v + |a.value|, ESCAPED))
  }

  lemma TextLayout(s: string, p: nat, a: Written)
    requires At(s, p, Text(a))
    ensures var n := p + |a.before|;
      var e := n + |a.name|;
      var q := e + |a.gap|;
      var v := q + 1 + |a.space|;
      && At(s, p, a.before) && At(s, n, a.name) && At(s, e, a.gap) && Ch(s, q) == '=' && At(s, q + 1, a.space)
      && Ch(s, v) == a.quote && At(s, v + 1, a.value + [a.quote])
      && (a.gap != "" ==> Ch(s, e) == a.gap[0]) && (a.name != "" ==> Ch(s, n) == a.name[0])
      && |Text(a)| == v + 1 + |a.value| + 1 - p
  {
    hide At;
    var rest := a.value + [a.quote];
    var quoted := [a.quote] + rest;
    AtParts(s, p, a.before, a.name + (a.gap + ("=" + (a.space + quoted))));
    var n := p + |a.before|;
    AtParts(s, n, a.name, a.gap + ("=" + (a.space + quoted)));
    var e := n + |a.name|;
    AtParts(s, e, a.gap, "=" + (a.space + quoted));
    var q := e + |a.gap|;
    AtParts(s, q, "=", a.space + quoted);
    AtParts(s, q + 1, a.space, quoted);
    var v := q + 1 + |a.space|;
    AtParts(s, v, [a.quote], rest);
    AtHead(s, q, "=");
    AtHead(s, v, [a.quote]);
    if a.gap != "" { AtHead(s, e, a.gap); }
    if a.name != "" { AtHead(s, n, a.name); }
  }

  /** White space, marks and quotes are no name characters, and marks, quotes and names no white space. */
  lemma SpacesEndNames(c: char)
    ensures c in SPACES || Mark(c) ==> !InName(c)
    ensures InName(c) || Mark(c) ==> c !in SPACES
  {
    Classes(c);
    hide InName, StartsName;
  }

  predicate Mark(c: char) { c == '=' || c == '\"' || c == '\'' || c == '>' || c == '/' || c == NUL }

  /** Where the parser finds the parts of an attribute. */
  predicate PartsFound(s: string, p: nat, n: nat, e: nat, q: nat, v: nat, close: nat) {
    && p <= n < e <= q < v < close < |s| && SkipWhiteSpace(s, p) == n && IsNameStartChar(s[n]) && NameEnd(s, n) == e
    && SkipWhiteSpace(s, e) == q && s[q] == '=' && Ch(s, e) != NUL && SkipWhiteSpace(s, q + 1) == v
    && (s[v] == '\"' || s[v] == '\'') && NoNul([s[v]]) && FindEnd(s, v + 1, [s[v]]) == Some(close)
  }

  lemma FoundIsParsed(s: string, p: nat, n: nat, e: nat, q: nat, v: nat, close: nat)
    requires PartsFound(s, p, n, e, q, v, close)
    ensures ParseAttribute(s, n) ==
      OneAttribute(Attribute(Segment(n, e, NAME), Segment(v + 1, close, ESCAPED)), close + 1)
  {
    hide SkipWhiteSpace, NameEnd, FindEnd, NoNul, IsNameStartChar;
  }

  lemma PartsAreFound(s: string, p: nat, a: Written)
    requires Proper(a) && At(s, p, Text(a)) && p + |Text(a)| <= |s|
    ensures var n := p + |a.before|;
      var e := n + |a.name|;
      var q := e + |a.gap|;
      var v := q + 1 + |a.space|;
      PartsFound(s, p, n, e, q, v, v + 1 + |a.value|) && v + 1 + |a.value| + 1 == p + |Text(a)|
  {
    hide At, Spaces, InName, StartsName, NameEnd, SkipWhiteSpace, FindEnd, Text, NoNul;
    TextLayout(s, p, a);
    var n := p + |a.before|;
    var e := n + |a.name|;
    var q := e + |a.gap|;
    var v := q + 1 + |a.space|;
    assert a.name[0] in a.name;
    Classes(a.name[0]);
    SpacesEndNames(a.name[0]);
    SpacesSkipped(s, p, a.before);
    if a.gap != "" { SpacesTail(a.gap); }
    SpacesEndNames(Ch(s, e));
    SpacesEndNames('=');
    SpacesEndNames(a.quote);
    NameSpelled(s, n, a.name);
    SpacesSkipped(s, e, a.gap);
    SpacesSkipped(s, q + 1, a.space);
    QuoteFound(s, v + 1, a.value, a.quote);
    NoNulAt(s, e, q);
  }

  /** Every spelling of an attribute is read as its name and its value. */
  lemma WrittenIsRead(s: string, p: nat, a: Written)
    requires Proper(a) && At(s, p, Text(a)) && p + |Text(a)| <= |s|
    ensures SkipWhiteSpace(s, p) == p + |a.before| && p + |a.before| < |s| && IsNameStartChar(s[p + |a.before|])
    ensures ParseAttribute(s, p + |a.before|) == OneAttribute(PartsAt(p, a), p + |Text(a)|)
  {
    hide At, SkipWhiteSpace, FindEnd, Text, NoNul, Proper, ParseAttribute, NameEnd, IsNameStartChar;
    PartsAreFound(s, p, a);
    var e := p + |a.before| + |a.name|;
    var v := e + |a.gap| + 1 + |a.space|;
    FoundIsParsed(s, p, p + |a.before|, e, e + |a.gap|, v, v + 1 + |a.value|);
  }

  lemma NoNulAt(s: string, e: nat, q: nat)
    requires e <= q && q < |s| && Ch(s, q) == '=' && SkipWhiteSpace(s, e) == q
    ensures Ch(s, e) != NUL
  {
  }

  lemma QuoteFound(s: string, p: nat, value: string, quote: char)
    requires At(s, p, value + [quote]) && p + |value| + 1 <= |s| && NoNul(value) && quote !in value && quote != NUL
    ensures NoNul([quote]) && FindEnd(s, p, [quote]) == Some(p + |value|)
  {
    forall i | 0 <= i < |value| ensures !At(value, i, [quote]) {
      AtChar(value, i, quote);
      assert value[i] in value;
    }
    XmlRoundTrip.FindEndExact(s, p, value, [quote]);
  }

  /** And every attribute that is read is spelled so. */
  lemma ReadIsWritten(s: string, p: nat) returns (a: Written)
    requires p <= |s| && Ch(s, SkipWhiteSpace(s, p)) != NUL && IsNameStartChar(Ch(s, SkipWhiteSpace(s, p)))
    requires ParseAttribute(s, SkipWhiteSpace(s, p)).OneAttribute?
    ensures Proper(a) && At(s, p, Text(a)) && p + |Text(a)| <= |s|
    ensures ParseAttribute(s, SkipWhiteSpace(s, p)) == OneAttribute(PartsAt(p, a), p + |Text(a)|)
  {
    hide Spaces, InName, StartsName, NameEnd, SkipWhiteSpace, NoNul, FindEnd, IsName, At, Text;
    var n := SkipWhiteSpace(s, p);
    var e := NameEnd(s, n);
    var q := SkipWhiteSpace(s, e);
    var v := SkipWhiteSpace(s, q + 1);
    QuoteHasNoNul(s[v]);
    var close := FindEnd(s, v + 1, [s[v]]).value;
    SkippedAreSpaces(s, p);
    NameIsOne(s, n);
    SkippedAreSpaces(s, e);
    SkippedAreSpaces(s, q + 1);
    ValueHasNoQuote(s, v, close);
    a := Written(s[p..n], s[n..e], s[e..q], s[q + 1..v], s[v], s[v + 1..close]);
    TextIsThere(s, p, n, e, q, v, close);
  }

  lemma ValueHasNoQuote(s: string, v: nat, close: nat)
    requires v < |s| && (s[v] == '\"' || s[v] == '\'') && NoNul([s[v]]) && FindEnd(s, v + 1, [s[v]]) == Some(close)
    ensures v + 1 <= close < |s| && s[close] == s[v] && NoNul(s[v + 1..close]) && s[v] !in s[v + 1..close]
  {
    hide FindEnd, At;
    AtChar(s, close, s[v]);
    var t := s[v + 1..close];
    forall i | 0 <= i < |t| ensures t[i] != s[v] && t[i] != NUL {
      AtChar(s, v + 1 + i, s[v]);
      assert t[i] == s[v + 1 + i];
    }
  }

  lemma QuoteHasNoNul(c: char)
    ensures c != NUL ==> NoNul([c])
  {
  }

  lemma TextIsThere(s: string, p: nat, n: nat, e: nat, q: nat, v: nat, close: nat)
    requires p <= n <= e <= q < v < close < |s| && s[q] == '=' && s[close] == s[v]
    ensures var a := Written(s[p..n], s[n..e], s[e..q], s[q + 1..v], s[v], s[v + 1..close]);
      p + |Text(a)| == close + 1 && At(s, p, Text(a))
  {
    var a := Written(s[p..n], s[n..e], s[e..q], s[q + 1..v], s[v], s[v + 1..close]);
    assert Text(a) == s[p..close + 1] by {
      assert s[v + 1..close] + [s[v]] == s[v + 1..close + 1];
      assert [s[v]] + s[v + 1..close + 1] == s[v..close + 1];
      assert s[q + 1..v] + s[v..close + 1] == s[q + 1..close + 1];
      assert "=" + s[q + 1..close + 1] == s[q..close + 1];
      assert s[e..q] + s[q..close + 1] == s[e..close + 1];
      assert s[n..e] + s[e..close + 1] == s[n..close + 1];
      assert s[p..n] + s[n..close + 1] == s[p..close + 1];
    }
    XmlRoundTrip.AtHere(s, p, s[p..close + 1]);
  }

  lemma PartsRaw(s: string, p: nat, a: Written)
    requires At(s, p, Text(a)) && p + |Text(a)| <= |s|
    ensures var at := PartsAt(p, a);
      at.value.end <= |s| && Raw(s, at.name) == a.name && Raw(s, at.value) == a.value
  {
    hide At, Text;
    TextLayout(s, p, a);
    var v := p + |a.before| + |a.name| + |a.gap| + 1 + |a.space|;
    AtParts(s, v + 1, a.value, [a.quote]);
    XmlRoundTrip.ReadsBack(s, p + |a.before|, a.name);
    XmlRoundTrip.ReadsBack(s, v + 1, a.value);
  }

  // ----- lists of attributes -----

  function TextAll(list: seq<Written>): string { if list == [] then "" else Text(list[0]) + TextAll(list[1..]) }

  function PartsAll(p: nat, list: seq<Written>): seq<Attribute<Segment>>
    decreases list
  {
    if list == [] then [] else [PartsAt(p, list[0])] + PartsAll(p + |Text(list[0])|, list[1..])
  }

  /** Names are different from each other, and from those of the attributes read before. */
  predicate ProperAll(s: string, before: seq<Attribute<Segment>>, list: seq<Written>) {
    && (forall i :: 0 <= i < |list| ==> Proper(list[i]) && !HasName(s, before, list[i].name))
    && (forall i, j :: 0 <= i < j < |list| ==> list[i].name != list[j].name)
  }

  predicate ProperList(list: seq<Written>) {
    && (forall i :: 0 <= i < |list| ==> Proper(list[i]))
    && (forall i, j :: 0 <= i < j < |list| ==> list[i].name != list[j].name)
  }

  lemma NothingBefore(s: string, list: seq<Written>)
    ensures ProperAll(s, [], list) <==> ProperList(list)
  {
    hide Proper;
  }

  predicate HasName(s: string, list: seq<Attribute<Segment>>, name: string) {
    exists i :: 0 <= i < |list| && list[i].name.start <= list[i].name.end <= |s| && Raw(s, list[i].name) == name
  }

  function TagEnd(closed: bool): string { if closed then "/>" else ">" }

  /** One more attribute: it is taken unless its name is there already. */
  lemma OneWritten(s: string, p: nat, before: seq<Attribute<Segment>>, a: Written)
    requires Proper(a) && At(s, p, Text(a)) && p + |Text(a)| <= |s|
    ensures ParseAttributes(s, p, before) ==
      if HasName(s, before, a.name) then BadAttributes(ParsingAttribute)
      else ParseAttributes(s, p + |Text(a)|, before + [PartsAt(p, a)])
  {
    hide Proper, Text, At, SkipWhiteSpace, NameTaken, HasName, ParseAttribute, ParseAttributes, IsNameStartChar, Raw;
    WrittenIsRead(s, p, a);
    PartsRaw(s, p, a);
    TakenIsNamed(s, before, PartsAt(p, a).name);
    hide PartsAt;
    AttributeTurn(s, p, before, p + |a.before|, PartsAt(p, a), p + |Text(a)|);
  }

  lemma TakenIsNamed(s: string, before: seq<Attribute<Segment>>, seg: Segment)
    requires seg.start <= seg.end <= |s|
    ensures NameTaken(s, before, seg) <==> HasName(s, before, Raw(s, seg))
  {
  }

  lemma AttributeTurn(s: string, p: nat, before: seq<Attribute<Segment>>, q: nat, a: Attribute<Segment>, next: nat)
    requires p <= |s| && q < |s| && SkipWhiteSpace(s, p) == q && IsNameStartChar(s[q])
    requires ParseAttribute(s, q) == OneAttribute(a, next)
    ensures ParseAttributes(s, p, before) ==
      if NameTaken(s, before, a.name) then BadAttributes(ParsingAttribute)
      else ParseAttributes(s, next, before + [a])
  {
    hide SkipWhiteSpace, ParseAttribute, NameTaken;
  }

  lemma NameStays(s: string, before: seq<Attribute<Segment>>, a: Attribute<Segment>, name: string)
    ensures HasName(s, before, name) ==> HasName(s, before + [a], name)
    ensures a.name.start <= a.name.end <= |s| && Raw(s, a.name) == name ==> HasName(s, before + [a], name)
    ensures HasName(s, before + [a], name) ==>
      HasName(s, before, name) || (a.name.start <= a.name.end <= |s| && Raw(s, a.name) == name)
  {
    var after := before + [a];
    assert after[|before|] == a && forall i :: 0 <= i < |before| ==> after[i] == before[i];
  }

  lemma ProperTail(s: string, p: nat, before: seq<Attribute<Segment>>, list: seq<Written>)
    requires list != [] && ProperAll(s, before, list) && At(s, p, Text(list[0])) && p + |Text(list[0])| <= |s|
    ensures ProperAll(s, before + [PartsAt(p, list[0])], list[1..])
  {
    PartsRaw(s, p, list[0]);
    hide Proper, Text, At, HasName, PartsAt;
    var before' := before + [PartsAt(p, list[0])];
    forall i | 0 <= i < |list[1..]| ensures !HasName(s, before', list[1..][i].name) {
      assert list[1..][i] == list[i + 1];
      NameStays(s, before, PartsAt(p, list[0]), list[i + 1].name);
    }
  }

  lemma TagEndIs(s: string, p: nat, tail: string, closed: bool, before: seq<Attribute<Segment>>)
    requires Spaces(tail) && At(s, p, tail + TagEnd(closed)) && p + |tail| + |TagEnd(closed)| <= |s|
    ensures ParseAttributes(s, p, before) == Attributes(before, p + |tail| + |TagEnd(closed)|, closed)
  {
    hide At, Spaces, SkipWhiteSpace, StartsName, InName;
    var q := p + |tail|;
    AtParts(s, p, tail, TagEnd(closed));
    TagEndAt(s, q, closed);
    SpacesEndNames('>');
    SpacesEndNames('/');
    SpacesSkipped(s, p, tail);
    Classes(Ch(s, q));
    assert !InName(Ch(s, q)) ==> !StartsName(Ch(s, q)) by { NoStart(Ch(s, q)); }
  }

  lemma NoStart(c: char)
    ensures !InName(c) ==> !StartsName(c)
  {
  }

  lemma TagEndAt(s: string, q: nat, closed: bool)
    requires At(s, q, TagEnd(closed))
    ensures if closed then Ch(s, q) == '/' && Ch(s, q + 1) == '>' else Ch(s, q) == '>'
  {
    AtHead(s, q, TagEnd(closed));
    if closed { assert Ch(s, q + 1) == "/>"[1]; }
  }

  lemma TextAllSplit(list: seq<Written>, rest: string)
    requires list != []
    ensures TextAll(list) + rest == Text(list[0]) + (TextAll(list[1..]) + rest)
    ensures |TextAll(list)| == |Text(list[0])| + |TextAll(list[1..])|
  {
    hide Text;
    Associates(Text(list[0]), TextAll(list[1..]), rest);
  }

  lemma Associates(a: string, b: string, c: string)
    ensures (a + b) + c == a + (b + c)
  {
  }

  /** Every list of attributes with different names, in any spelling, is read as it is meant. */
  lemma {:induction false} ListIsRead(s: string, p: nat, before: seq<Attribute<Segment>>, list: seq<Written>,
                                      tail: string, closed: bool)
    requires ProperAll(s, before, list) && Spaces(tail)
    requires At(s, p, TextAll(list) + (tail + TagEnd(closed)))
    requires p + |TextAll(list)| + |tail| + |TagEnd(closed)| <= |s|
    ensures ParseAttributes(s, p, before) ==
      Attributes(before + PartsAll(p, list), p + |TextAll(list)| + |tail| + |TagEnd(closed)|, closed)
    decreases |list|
  {
    hide At, Text, Spaces, ParseAttributes, TagEnd, HasName, Proper, PartsAt;
    var rest := tail + TagEnd(closed);
    if list == [] {
      assert TextAll(list) + rest == rest && before + [] == before;
      TagEndIs(s, p, tail, closed, before);
    } else {
      var a, p' := list[0], p + |Text(list[0])|;
      TextAllSplit(list, rest);
      AtParts(s, p, Text(a), TextAll(list[1..]) + rest);
      OneWritten(s, p, before, a);
      ProperTail(s, p, before, list);
      hide ProperAll, TextAll;
      ListIsRead(s, p', before + [PartsAt(p, a)], list[1..], tail, closed);
      assert before + [PartsAt(p, a)] + PartsAll(p', list[1..]) == before + PartsAll(p, list);
    }
  }

  /** And every list that is read is spelled so. */
  lemma {:induction false} ListIsWritten(s: string, p: nat, before: seq<Attribute<Segment>>)
    returns (list: seq<Written>, tail: string, closed: bool)
    requires p <= |s| && ParseAttributes(s, p, before).Attributes?
    ensures ProperAll(s, before, list) && Spaces(tail) && At(s, p, TextAll(list) + (tail + TagEnd(closed)))
    ensures p + |TextAll(list)| + |tail| + |TagEnd(closed)| <= |s|
    ensures ParseAttributes(s, p, before) ==
      Attributes(before + PartsAll(p, list), p + |TextAll(list)| + |tail| + |TagEnd(closed)|, closed)
    decreases |s| - p
  {
    hide At, Text, Spaces, TagEnd, SkipWhiteSpace, ParseAttribute, Proper, HasName, PartsAt;
    var q := SkipWhiteSpace(s, p);
    if IsNameStartChar(s[q]) {
      var a := ReadIsWritten(s, p);
      OneWritten(s, p, before, a);
      var more;
      more, tail, closed := ListIsWritten(s, p + |Text(a)|, before + [PartsAt(p, a)]);
      list := [a] + more;
      assert list[1..] == more;
      hide TextAll, ProperAll, PartsAll, ParseAttributes;
      OneMoreWritten(s, p, before, a, more);
      MoreParts(p, before, list);
      XmlRoundTrip.AtJoined(s, p, Text(a), TextAll(more) + (tail + TagEnd(closed)));
      TextAllSplit(list, tail + TagEnd(closed));
    } else {
      list, tail, closed := [], s[p..q], s[q] == '/';
      EndIsWritten(s, p);
      TagEndIs(s, p, tail, closed, before);
      assert TextAll(list) + (tail + TagEnd(closed)) == tail + TagEnd(closed) && before + [] == before;
    }
  }

  lemma MoreParts(p: nat, before: seq<Attribute<Segment>>, list: seq<Written>)
    requires list != []
    ensures before + [PartsAt(p, list[0])] + PartsAll(p + |Text(list[0])|, list[1..]) == before + PartsAll(p, list)
  {
    hide PartsAt, Text;
  }

  lemma EndIsWritten(s: string, p: nat)
    requires p <= |s|
    requires var q := SkipWhiteSpace(s, p); q < |s| && (s[q] == '>' || (s[q] == '/' && Ch(s, q + 1) == '>'))
    ensures var q := SkipWhiteSpace(s, p);
      Spaces(s[p..q]) && At(s, p, s[p..q] + TagEnd(s[q] == '/')) && q + |TagEnd(s[q] == '/')| <= |s|
  {
    SkippedAreSpaces(s, p);
    hide Spaces, SkipWhiteSpace;
    var q := SkipWhiteSpace(s, p);
    var end := TagEnd(s[q] == '/');
    assert s[p..q] + end == s[p..q + |end|];
    XmlRoundTrip.AtHere(s, p, s[p..q] + end);
  }

  lemma OneMoreWritten(s: string, p: nat, before: seq<Attribute<Segment>>, a: Written, more: seq<Written>)
    requires Proper(a) && At(s, p, Text(a)) && p + |Text(a)| <= |s| && !HasName(s, before, a.name)
    requires ProperAll(s, before + [PartsAt(p, a)], more)
    ensures ProperAll(s, before, [a] + more)
  {
    PartsRaw(s, p, a);
    hide Proper, Text, At, HasName, PartsAt;
    forall j | 0 <= j < |more| ensures more[j].name != a.name && !HasName(s, before, more[j].name) {
      NameStays(s, before, PartsAt(p, a), more[j].name);
    }
  }

  // ----- tags -----

  /** A tag as it may be written behind its '<'. */
  datatype WrittenTag = WrittenTag(before: string, slash: bool, name: string, attributes: seq<Written>, tail: string,
                                   closed: bool)

  function Slash(slash: bool): string { if slash then "/" else "" }

  function TagText(t: WrittenTag): string {
    t.before + (Slash(t.slash) + (t.name + (TextAll(t.attributes) + (t.tail + TagEnd(t.closed)))))
  }

  /** The attributes have different names, and white space sets them off from the name of the tag. */
  predicate ProperTag(t: WrittenTag) {
    && Spaces(t.before) && IsName(t.name) && ProperList(t.attributes) && Spaces(t.tail)
    && (t.attributes != [] ==> t.attributes[0].before != "")
  }

  /** What the parser takes the tag at p for. */
  function TagAtPlace(p: nat, t: WrittenTag): TagRead {
    var n := p + |t.before| + |Slash(t.slash)|;
    Tag(Segment(n, n + |t.name|, NAME), PartsAll(n + |t.name|, t.attributes),
      if t.closed then CLOSED else if t.slash then CLOSING else OPEN, p + |TagText(t)|)
  }

  lemma TagLayout(s: string, p: nat, t: WrittenTag)
    requires At(s, p, TagText(t))
    ensures var m := p + |t.before|;
      var n := m + |Slash(t.slash)|;
      var e := n + |t.name|;
      && At(s, p, t.before) && At(s, m, Slash(t.slash)) && At(s, n, t.name)
      && At(s, e, TextAll(t.attributes) + (t.tail + TagEnd(t.closed)))
      && (t.slash ==> Ch(s, m) == '/') && (t.name != "" ==> Ch(s, n) == t.name[0])
      && |TagText(t)| == e + |TextAll(t.attributes)| + |t.tail| + |TagEnd(t.closed)| - p
  {
    hide At, TextAll, TagEnd;
    var rest := TextAll(t.attributes) + (t.tail + TagEnd(t.closed));
    AtParts(s, p, t.before, Slash(t.slash) + (t.name + rest));
    var m := p + |t.before|;
    AtParts(s, m, Slash(t.slash), t.name + rest);
    var n := m + |Slash(t.slash)|;
    AtParts(s, n, t.name, rest);
    if t.slash { AtHead(s, m, "/"); }
    if t.name != "" { AtHead(s, n, t.name); }
  }

  /** What follows the name ends it. */
  lemma NameIsSetOff(s: string, e: nat, t: WrittenTag)
    requires ProperTag(t) && At(s, e, TextAll(t.attributes) + (t.tail + TagEnd(t.closed)))
    ensures !InName(Ch(s, e))
  {
    hide At, InName, StartsName, Text, IsName;
    var rest := t.tail + TagEnd(t.closed);
    if t.attributes != [] {
      var a := t.attributes[0];
      TextAllSplit(t.attributes, rest);
      AtParts(s, e, Text(a), TextAll(t.attributes[1..]) + rest);
      TextLayout(s, e, a);
      AtHead(s, e, a.before);
      SpacesTail(a.before);
    } else {
      assert TextAll(t.attributes) + rest == rest;
      AtHead(s, e, rest);
      if t.tail != "" { SpacesTail(t.tail); }
    }
    SpacesEndNames(Ch(s, e));
  }

  /** Where the parser finds the name of a tag. */
  predicate NameFound(s: string, p: nat, m: nat, slash: bool, e: nat) {
    && p <= m <= |s| && SkipWhiteSpace(s, p) == m && (Ch(s, m) == '/' <==> slash)
    && var n := if slash then m + 1 else m; n <= |s| && IsNameStartChar(Ch(s, n)) && NameEnd(s, n) == e
  }

  lemma NameIsFound(s: string, p: nat, t: WrittenTag)
    requires ProperTag(t) && At(s, p, TagText(t)) && p + |TagText(t)| <= |s|
    ensures NameFound(s, p, p + |t.before|, t.slash, p + |t.before| + |Slash(t.slash)| + |t.name|)
  {
    hide At, InName, StartsName, NameEnd, SkipWhiteSpace, TagText, TextAll, Spaces, ProperList;
    TagLayout(s, p, t);
    var m := p + |t.before|;
    var n := m + |Slash(t.slash)|;
    NameIsSetOff(s, n + |t.name|, t);
    assert t.name[0] in t.name;
    Classes(t.name[0]);
    StartIsInName(t.name[0]);
    SpacesEndNames(t.name[0]);
    SpacesEndNames('/');
    SpacesSkipped(s, p, t.before);
    NameSpelled(s, n, t.name);
  }

  /** Every spelling of a tag is read as it is meant. */
  lemma TagIsRead(s: string, p: nat, t: WrittenTag)
    requires ProperTag(t) && At(s, p, TagText(t)) && p + |TagText(t)| <= |s|
    ensures ReadTag(s, p) == TagAtPlace(p, t)
  {
    hide At, NameFound, TagText, ParseAttributes, TextAll, Spaces, ProperAll, ProperList, IsName, TagEnd, ReadTag;
    TagLayout(s, p, t);
    NothingBefore(s, t.attributes);
    NameIsFound(s, p, t);
    var e := p + |t.before| + |Slash(t.slash)| + |t.name|;
    ListIsRead(s, e, [], t.attributes, t.tail, t.closed);
    assert [] + PartsAll(e, t.attributes) == PartsAll(e, t.attributes);
    TagOfParts(s, p, p + |t.before|, t.slash, e, PartsAll(e, t.attributes), p + |TagText(t)|, t.closed);
  }

  lemma TagOfParts(s: string, p: nat, m: nat, slash: bool, e: nat, list: seq<Attribute<Segment>>, q: nat, closed: bool)
    requires NameFound(s, p, m, slash, e) && e <= |s| && ParseAttributes(s, e, []) == Attributes(list, q, closed)
    ensures ReadTag(s, p) ==
      Tag(Segment(if slash then m + 1 else m, e, NAME), list,
        if closed then CLOSED else if slash then CLOSING else OPEN, q)
  {
    hide ParseAttributes, SkipWhiteSpace, NameEnd, IsNameStartChar;
  }

  lemma StartIsInName(c: char)
    ensures StartsName(c) ==> InName(c) && c != '/'
  {
    Classes(c);
  }

  /** And every tag that is read is spelled so. */
  lemma TagIsWritten(s: string, p: nat) returns (t: WrittenTag)
    requires p <= |s| && ReadTag(s, p).Tag?
    ensures ProperTag(t) && At(s, p, TagText(t)) && p + |TagText(t)| <= |s| && ReadTag(s, p) == TagAtPlace(p, t)
  {
    hide At, InName, StartsName, NameEnd, SkipWhiteSpace, ParseAttributes, TextAll, Spaces, ProperAll, IsName, TagEnd;
    hide ProperList;
    var m := SkipWhiteSpace(s, p);
    var slash := Ch(s, m) == '/';
    var n := if slash then m + 1 else m;
    SkippedAreSpaces(s, p);
    NameIsOne(s, n);
    var e := NameEnd(s, n);
    var list, tail, closed := ListIsWritten(s, e, []);
    NothingBefore(s, list);
    t := WrittenTag(s[p..m], slash, s[n..e], list, tail, closed);
    assert [] + PartsAll(e, list) == PartsAll(e, list);
    SetOff(s, e, list, tail + TagEnd(closed));
    TagIsThere(s, p, m, e, t);
    TagIsRead(s, p, t);
  }

  lemma SetOff(s: string, e: nat, list: seq<Written>, rest: string)
    requires !InName(Ch(s, e)) && ProperAll(s, [], list) && At(s, e, TextAll(list) + rest)
    ensures list != [] ==> list[0].before != ""
  {
    hide At, Text, InName, StartsName;
    if list != [] {
      var a := list[0];
      TextAllSplit(list, rest);
      AtParts(s, e, Text(a), TextAll(list[1..]) + rest);
      TextLayout(s, e, a);
      assert a.name[0] in a.name;
    }
  }

  lemma TagIsThere(s: string, p: nat, m: nat, e: nat, t: WrittenTag)
    requires p <= m <= |s| && m + |Slash(t.slash)| + |t.name| == e <= |s|
    requires t.before == s[p..m] && (t.slash ==> Ch(s, m) == '/') && t.name == s[m + |Slash(t.slash)|..e]
    requires At(s, e, TextAll(t.attributes) + (t.tail + TagEnd(t.closed)))
    ensures At(s, p, TagText(t))
    ensures p + |TagText(t)| == e + |TextAll(t.attributes)| + |t.tail| + |TagEnd(t.closed)|
  {
    hide At, TextAll, TagEnd;
    var rest := TextAll(t.attributes) + (t.tail + TagEnd(t.closed));
    var n := m + |Slash(t.slash)|;
    XmlRoundTrip.AtHere(s, n, t.name);
    XmlRoundTrip.AtJoined(s, n, t.name, rest);
    assert Slash(t.slash) == s[m..n];
    XmlRoundTrip.AtHere(s, m, Slash(t.slash));
    XmlRoundTrip.AtJoined(s, m, Slash(t.slash), t.name + rest);
    XmlRoundTrip.AtHere(s, p, t.before);
    XmlRoundTrip.AtJoined(s, p, t.before, Slash(t.slash) + (t.name + rest));
  }

  // ----- what a tag means -----

  /** The attributes with their values decoded. */
  function Meant(list: seq<Written>): seq<Attribute<string>> {
    if list == [] then []
    else [Attribute(list[0].name, UpToNul(Flush(list[0].value, 0, 0, ESCAPED)))] + Meant(list[1..])
  }

  /** What GetStr makes of the attributes depends on the names and values only, not on their spelling. */
  lemma {:induction false} PartsMeanThat(s: string, p: nat, list: seq<Written>, rest: string)
    requires (forall i :: 0 <= i < |list| ==> Proper(list[i])) && At(s, p, TextAll(list) + rest)
    requires p + |TextAll(list)| <= |s|
    ensures ViewAttributes(s, PartsAll(p, list)) == Meant(list)
    decreases |list|
  {
    hide At, Text, Flush, CStr, PartsAt, Proper;
    if list != [] {
      var a := list[0];
      TextAllSplit(list, rest);
      AtParts(s, p, Text(a), TextAll(list[1..]) + rest);
      PartMeansThat(s, p, a);
      PartsMeanThat(s, p + |Text(a)|, list[1..], rest);
      assert PartsAll(p, list)[1..] == PartsAll(p + |Text(a)|, list[1..]);
    }
  }

  lemma PartMeansThat(s: string, p: nat, a: Written)
    requires Proper(a) && At(s, p, Text(a)) && p + |Text(a)| <= |s|
    ensures View(s, PartsAt(p, a).name) == a.name
    ensures View(s, PartsAt(p, a).value) == UpToNul(Flush(a.value, 0, 0, ESCAPED))
  {
    hide At, Text, Flush, CStr;
    PartsRaw(s, p, a);
    NameHasNoNul(a.name);
    XmlRoundTrip.VerbatimRoundTrip(a.name, false);
  }

  lemma NameHasNoNul(name: string)
    requires IsName(name)
    ensures NUL !in name
  {
    if NUL in name { Classes(NUL); }
  }

  /** A whole document: an element closed in its own tag, in any spelling, is read as its name and attributes. */
  lemma ElementIsRead(t: WrittenTag)
    requires t.closed && ProperTag(t)
    ensures var s := "<" + TagText(t);
      && ParseDocument(s).Success?
      && ViewNodes(s, ParseDocument(s).nodes) == [Element(t.name, Meant(t.attributes), [])]
  {
    hide At, TagText, ReadTag, Identify, ProperTag, Meant, PartsAll, ParseDocument, ViewNodes, TagAtPlace;
    var s := "<" + TagText(t);
    Between(s, TagText(t));
    TagIsRead(s, 1, t);
    NoMarkup(s, 0, t);
    ClosedElement(s, t);
    TagViewed(s, t);
  }

  lemma Between(s: string, text: string)
    requires s == "<" + text
    ensures At(s, 1, text) && |s| == |text| + 1 && s[0] == '<'
  {
    assert s[1..1 + |text|] == text;
    XmlRoundTrip.AtHere(s, 1, text);
  }

  /** The tag does not begin like a comment or a declaration. */
  lemma NoMarkup(s: string, p: nat, t: WrittenTag)
    requires ProperTag(t) && At(s, p + 1, TagText(t)) && p + 1 + |TagText(t)| <= |s| && s[p] == '<'
    ensures Identify(s, p) == TagAt(p + 1)
  {
    hide TagText, InName, StartsName, Spaces, ProperList, Leaf;
    TagLayout(s, p + 1, t);
    var c := Ch(s, p + 1);
    if t.before != "" {
      SpacesTail(t.before);
      AtHead(s, p + 1, t.before);
    } else if !t.slash {
      Classes(t.name[0]);
    }
    hide At;
    Classes(c);
    assert c != '?' && c != '!';
    XmlRoundTrip.NotAt(s, p, "<!--", 1);
    XmlRoundTrip.NotAt(s, p, "<![CDATA[", 1);
    XmlRoundTrip.NothingToSkip(s, p);
  }

  lemma ClosedElement(s: string, t: WrittenTag)
    requires t.closed && |s| == 1 + |TagText(t)| && s[0] == '<'
    requires Identify(s, 0) == TagAt(1) && ReadTag(s, 1) == TagAtPlace(1, t)
    ensures var n := 1 + |t.before| + |Slash(t.slash)|;
      ParseDocument(s) ==
        Success([Element(Segment(n, n + |t.name|, NAME), PartsAll(n + |t.name|, t.attributes), [])])
  {
    hide TagText, Identify, ReadTag, PartsAll, ParseNodes;
    XmlRoundTrip.NothingToSkip(s, 0);
    var n := 1 + |t.before| + |Slash(t.slash)|;
    var node := Element(Segment(n, n + |t.name|, NAME), PartsAll(n + |t.name|, t.attributes), []);
    assert ParseOne(s, 0, 1) == One(node, CLOSED, None, |s|) by {
      assert ParseOne(s, 0, 1) == ParseElement(s, 1, 1);
    }
    XmlRoundTrip.LoopTakes(s, 0, 1, true, []);
    assert [] + [node] == [node];
    EndOfInput(s, |s|, [node]);
  }

  lemma EndOfInput(s: string, p: nat, done: seq<Node<Segment>>)
    requires p <= |s| && Ch(s, p) == NUL
    ensures ParseNodes(s, p, 1, true, done) == Ended(done)
  {
  }

  lemma TagViewed(s: string, t: WrittenTag)
    requires ProperTag(t) && At(s, 1, TagText(t)) && 1 + |TagText(t)| <= |s|
    ensures var n := 1 + |t.before| + |Slash(t.slash)|;
      var node := Element(Segment(n, n + |t.name|, NAME), PartsAll(n + |t.name|, t.attributes), []);
      ViewNodes(s, [node]) == [Element(t.name, Meant(t.attributes), [])]
  {
    hide TagText, TextAll, At, IsName, View, PartsAll, ViewAttributes, Meant;
    TagLayout(s, 1, t);
    var n := 1 + |t.before| + |Slash(t.slash)|;
    NameViewed(s, n, t.name);
    PartsMeanThat(s, n + |t.name|, t.attributes, t.tail + TagEnd(t.closed));
    OneElement(s, Segment(n, n + |t.name|, NAME), PartsAll(n + |t.name|, t.attributes));
  }

  lemma NameViewed(s: string, n: nat, name: string)
    requires At(s, n, name) && n + |name| <= |s| && IsName(name)
    ensures View(s, Segment(n, n + |name|, NAME)) == name
  {
    hide At, Flush, CStr, IsName;
    XmlRoundTrip.ReadsBack(s, n, name);
    NameHasNoNul(name);
    XmlRoundTrip.VerbatimRoundTrip(name, false);
  }

  lemma OneElement(s: string, name: Segment, list: seq<Attribute<Segment>>)
    ensures ViewNodes(s, [Element(name, list, [])]) == [Element(View(s, name), ViewAttributes(s, list), [])]
  {
    hide View, ViewAttributes;
    var node := Element(name, list, []);
    assert [node][1..] == [] && ViewNodes(s, []) == [];
  }
}
