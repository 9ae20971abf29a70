/** Parsing what compact printing wrote gives back the tree. */
module XmlRoundTrip {
  import opened XmlText
  import opened Decoding
  import opened XmlTree
  import opened XmlParser

  // ----- escaping and decoding -----

  lemma PatternIsNamed(s: string, p: nat, c: char)
    requires c == '\"' || c == '&' || c == '\'' || c == '<' || c == '>'
    requires At(s, p, "&" + Pattern(c) + ";")
    ensures Named(s, p, 0).Some? && Named(s, p, 0).value.value == c && |Named(s, p, 0).value.pattern| == |Pattern(c)|
    ensures Ch(s, p + 1) != '#'
  {
    var lit, i := "&" + Pattern(c) + ";", TableEntry(c);
    assert Ch(s, p + 1) == lit[1] && Ch(s, p + 2) == lit[2];
    EntityIsThere(s, p, c);
    hide At, Named;
    NotNamed(s, p, lit[1], lit[2]);
    NamedAt(s, p, i);
  }

  /** The place of the character in the entity table. */
  function TableEntry(c: char): (i: nat)
    requires c == '\"' || c == '&' || c == '\'' || c == '<' || c == '>'
    ensures i < |ENTITIES| && ENTITIES[i] == Entity(Pattern(c), c)
  {
    if c == '\"' then 0 else if c == '&' then 1 else if c == '\'' then 2 else if c == '<' then 3 else 4
  }

  lemma EntityIsThere(s: string, p: nat, c: char)
    requires At(s, p, "&" + Pattern(c) + ";")
    ensures At(s, p + 1, Pattern(c)) && Ch(s, p + |Pattern(c)| + 1) == ';'
  {
    hide Pattern;
    AtParts(s, p, "&" + Pattern(c), ";");
    AtParts(s, p, "&", Pattern(c));
    AtHead(s, p + |"&" + Pattern(c)|, ";");
  }

  lemma NamedAt(s: string, p: nat, i: nat)
    requires i < |ENTITIES| && At(s, p + 1, ENTITIES[i].pattern) && Ch(s, p + |ENTITIES[i].pattern| + 1) == ';'
    ensures Named(s, p, i) == Some(ENTITIES[i])
  {
    hide At;
  }

  /** One escaped character is read back as one piece, unless it is a newline. */
  lemma EscapeCharBack(seg: string, p: nat, c: char, restricted: bool)
    requires p < |seg| && At(seg, p, EscapeChar(c, restricted)) && c != CR && c != LF
    ensures NextPiece(seg, p, ESCAPED) == Piece(p + |EscapeChar(c, restricted)|, [c])
  {
    var e := EscapeChar(c, restricted);
    assert Ch(seg, p + 0) == e[0];
    if Flagged(c, restricted) {
      PatternIsNamed(seg, p, c);
    }
  }

  lemma {:induction false} EscapeNoNul(v: string, restricted: bool, i: nat)
    requires NoNul(v) && i < |Escape(v, restricted)|
    ensures Escape(v, restricted)[i] != NUL && Escape(v, restricted)[i] != '<' && Escape(v, restricted)[i] != '>'
    ensures !restricted ==> Escape(v, restricted)[i] != '\"' && Escape(v, restricted)[i] != '\''
  {
    var e := EscapeChar(v[0], restricted);
    if i >= |e| { EscapeNoNul(v[1..], restricted, i - |e|); }
  }

  lemma FlushEnd(seg: string, q: nat)
    requires q <= |seg|
    ensures Flush(seg, |seg|, q, ESCAPED) == ""
  {
  }

  lemma {:induction false} FoldedHasNoCr(v: string)
    ensures CR !in Folded(v)
    decreases |v|
  {
    if v != "" { FoldedHasNoCr(if Pairs(v) then v[2..] else v[1..]); }
  }

  lemma {:induction false} FoldedNoNul(v: string)
    requires NoNul(v)
    ensures NoNul(Folded(v))
    decreases |v|
  {
    if v != "" { FoldedNoNul(if Pairs(v) then v[2..] else v[1..]); }
  }

  lemma {:induction false} FoldedPlain(v: string)
    requires CR !in v
    ensures Folded(v) == v
  {
    if v != "" {
      assert forall c :: c in v[1..] ==> c in v;
      FoldedPlain(v[1..]);
    }
  }

  /** The character after an escaped one. */
  lemma EscapeShowsNext(seg: string, p: nat, v: string, restricted: bool)
    requires At(seg, p, Escape(v, restricted))
    ensures v == "" && p == |seg| ==> Ch(seg, p) == NUL
    ensures v != "" ==> Ch(seg, p) == if Flagged(v[0], restricted) then '&' else v[0]
  {
    if v != "" {
      assert Ch(seg, p + 0) == Escape(v, restricted)[0];
    }
  }

  /** A newline of the value is one piece, with the newline character it pairs with. */
  lemma NewlineBack(seg: string, p: nat, v: string, restricted: bool)
    requires p + |Escape(v, restricted)| == |seg| && At(seg, p, Escape(v, restricted))
    requires v != "" && (v[0] == CR || v[0] == LF)
    ensures p < |seg| && NextPiece(seg, p, ESCAPED) == Piece(if Pairs(v) then p + 2 else p + 1, [LF])
    ensures At(seg, p + 1, Escape(v[1..], restricted)) && Escape(v, restricted) == [v[0]] + Escape(v[1..], restricted)
  {
    AtParts(seg, p, [v[0]], Escape(v[1..], restricted));
    EscapeShowsNext(seg, p, v, restricted);
    EscapeShowsNext(seg, p + 1, v[1..], restricted);
    hide Escape, At;
  }

  /** GetStr of the output of PrintString, wherever the cursors stand, is the original with its newlines folded. */
  lemma {:induction false} EscapeFlush(seg: string, p: nat, q: nat, v: string, restricted: bool)
    requires q <= p && p + |Escape(v, restricted)| == |seg| && At(seg, p, Escape(v, restricted))
    ensures Flush(seg, p, q, ESCAPED) == Folded(v)
    decreases |v|
  {
    hide NextPiece, Flush, At, EscapeChar;
    if v == "" {
      FlushEnd(seg, q);
    } else if v[0] == CR || v[0] == LF {
      NewlineBack(seg, p, v, restricted);
      if Pairs(v) {
        NewlineBack(seg, p + 1, v[1..], restricted);
        assert v[1..][1..] == v[2..];
        FlushPiece(seg, p, q, ESCAPED, p + 2, [LF]);
        EscapeFlush(seg, p + 2, q + 1, v[2..], restricted);
      } else {
        FlushPiece(seg, p, q, ESCAPED, p + 1, [LF]);
        EscapeFlush(seg, p + 1, q + 1, v[1..], restricted);
      }
    } else {
      var e, rest := EscapeChar(v[0], restricted), Escape(v[1..], restricted);
      AtParts(seg, p, e, rest);
      EscapeCharBack(seg, p, v[0], restricted);
      FlushPiece(seg, p, q, ESCAPED, p + |e|, [v[0]]);
      EscapeFlush(seg, p + |e|, q + 1, v[1..], restricted);
    }
  }

  lemma {:induction false} WholeCStr(v: string, p: nat)
    requires p <= |v| && forall i :: p <= i < |v| ==> v[i] != NUL
    ensures CStr(v, p) == v[p..]
    decreases |v| - p
  {
    if p < |v| {
      WholeCStr(v, p + 1);
      assert v[p..] == [v[p]] + v[p + 1..];
    }
  }

  lemma {:induction false} CStrHasNoNul(v: string, p: nat)
    ensures NUL !in CStr(v, p) && forall c :: c in CStr(v, p) ==> c in v
    decreases |v| - p
  {
    if p < |v| { CStrHasNoNul(v, p + 1); }
  }

  lemma PlainHas(v: string)
    ensures PlainValue(v) <==> NUL !in v && CR !in v
  {
  }

  /** Folding and cutting at a NUL changes every value but the plain ones. */
  lemma FoldedIsSameIffPlain(v: string)
    ensures UpToNul(Folded(v)) == v <==> PlainValue(v)
  {
    PlainHas(v);
    CStrHasNoNul(Folded(v), 0);
    FoldedHasNoCr(v);
    if PlainValue(v) {
      FoldedPlain(v);
      WholeCStr(v, 0);
    }
  }

  /** A value without NUL is read as it was folded. */
  lemma FoldedIsRead(v: string)
    requires NoNul(v)
    ensures UpToNul(Folded(v)) == Folded(v)
  {
    FoldedNoNul(v);
    WholeCStr(Folded(v), 0);
  }

  lemma FoldedSame(v: string)
    ensures Folded(v) == v <==> CR !in v
  {
    FoldedHasNoCr(v);
    if CR !in v { FoldedPlain(v); }
  }

  /** The round trip of one value: decoding its escaped form gives the value with its newlines folded; cut at a NUL that
      is the value itself if and only if it has no NUL and no CR. */
  lemma EscapeRoundTrip(v: string, restricted: bool)
    ensures Flush(Escape(v, restricted), 0, 0, ESCAPED) == Folded(v)
    ensures UpToNul(Flush(Escape(v, restricted), 0, 0, ESCAPED)) == v <==> PlainValue(v)
  {
    hide Folded, UpToNul, PlainValue;
    EscapeFlush(Escape(v, restricted), 0, 0, v, restricted);
    FoldedIsSameIffPlain(v);
  }

  /** A line of text, and how its end is written. */
  datatype Line = Line(text: string, newline: string)

  ghost predicate IsLine(l: Line) {
    l.text != "" && CR !in l.text && LF !in l.text && l.newline in {"\n", "\r", "\r\n", "\n\r"}
  }

  ghost function Joined(lines: seq<Line>): string {
    if lines == [] then "" else lines[0].text + (lines[0].newline + Joined(lines[1..]))
  }

  /** The lines with each end written as one LF. */
  ghost function JoinedByLf(lines: seq<Line>): string {
    if lines == [] then "" else lines[0].text + ("\n" + JoinedByLf(lines[1..]))
  }

  /** Of lines that are not empty, however their ends are written, each comes back ended by one LF. */
  lemma LinesComeBack(lines: seq<Line>, restricted: bool)
    requires forall i :: 0 <= i < |lines| ==> IsLine(lines[i])
    ensures Flush(Escape(Joined(lines), restricted), 0, 0, ESCAPED) == JoinedByLf(lines)
  {
    LinesFolded(lines);
    EscapeRoundTrip(Joined(lines), restricted);
  }

  lemma {:induction false} LinesFolded(lines: seq<Line>)
    requires forall i :: 0 <= i < |lines| ==> IsLine(lines[i])
    ensures Folded(Joined(lines)) == JoinedByLf(lines)
    ensures lines != [] ==> Joined(lines) != "" && Joined(lines)[0] != CR && Joined(lines)[0] != LF
  {
    if lines != [] {
      var l, rest := lines[0], Joined(lines[1..]);
      LinesFolded(lines[1..]);
      assert l.text[0] in l.text;
      NewlineFolded(l.newline, rest);
      FoldedBehind(l.text, l.newline + rest);
    }
  }

  lemma NewlineFolded(newline: string, rest: string)
    requires newline in {"\n", "\r", "\r\n", "\n\r"} && (rest != "" ==> rest[0] != CR && rest[0] != LF)
    ensures Folded(newline + rest) == "\n" + Folded(rest)
  {
    var v := newline + rest;
    if |newline| == 1 {
      assert v[1..] == rest && !Pairs(v);
    } else {
      assert v[2..] == rest && Pairs(v);
    }
  }

  lemma {:induction false} FoldedBehind(u: string, w: string)
    requires CR !in u && LF !in u
    ensures Folded(u + w) == u + Folded(w)
  {
    if u != "" {
      assert u[0] in u && forall c :: c in u[1..] ==> c in u;
      FoldedBehind(u[1..], w);
      assert (u + w)[1..] == u[1..] + w && u == [u[0]] + u[1..];
    } else {
      assert u + w == w;
    }
  }

  /** The text is what the character is written as, and is read as the character. */
  ghost predicate Stands(text: string, c: char, restricted: bool) {
    Escape([c], restricted) == text && Flush(text, 0, 0, ESCAPED) == [c]
  }

  /** The characters with an entity, and how they are written and read. */
  lemma FiveEntities()
    ensures Stands("&lt;", '<', true) && Stands("&gt;", '>', true) && Stands("&amp;", '&', true)
    ensures Stands("&quot;", '\"', false) && Stands("&apos;", '\'', false)
  {
    hide Stands;
    StandsFor("&lt;", '<', true);
    StandsFor("&gt;", '>', true);
    StandsFor("&amp;", '&', true);
    StandsFor("&quot;", '\"', false);
    StandsFor("&apos;", '\'', false);
  }

  lemma StandsFor(text: string, c: char, restricted: bool)
    requires text == EscapeChar(c, restricted) && c != CR && c != LF
    ensures Stands(text, c, restricted)
  {
    hide Flush, Escape;
    OneEscaped(c, restricted);
  }

  lemma OneEscaped(c: char, restricted: bool)
    requires c != CR && c != LF
    ensures Escape([c], restricted) == EscapeChar(c, restricted)
    ensures Flush(EscapeChar(c, restricted), 0, 0, ESCAPED) == [c]
  {
    assert [c][1..] == "" && EscapeChar(c, restricted) + "" == EscapeChar(c, restricted);
    assert Folded("") == "" && Folded([c]) == [c];
    hide Flush;
    EscapeRoundTrip([c], restricted);
  }

  /** What a value written as it is comes back as. */
  function Verbatim(v: string, newlines: bool): string { if newlines then Folded(v) else v }

  function AfterPiece(v: string, p: nat, newlines: bool): (next: nat)
    requires p < |v|
    ensures p < next <= |v|
  {
    if newlines && Pairs(v[p..]) then p + 2 else p + 1
  }

  lemma VerbatimStep(v: string, p: nat, newlines: bool)
    requires p < |v|
    ensures Verbatim(v[p..], newlines) ==
      (if newlines && v[p] == CR then [LF] else [v[p]]) + Verbatim(v[AfterPiece(v, p, newlines)..], newlines)
  {
    assert v[p..][1..] == v[p + 1..] && v[p..] == [v[p]] + v[p + 1..];
    if newlines && Pairs(v[p..]) { assert v[p..][2..] == v[p + 2..]; }
  }

  lemma VerbatimEnd(v: string, q: nat, newlines: bool)
    requires q <= |v|
    ensures Flush(v, |v|, q, Mode(false, newlines)) == Verbatim(v[|v|..], newlines) == ""
  {
  }

  lemma {:induction false} VerbatimFlush(v: string, p: nat, q: nat, newlines: bool)
    requires q <= p <= |v|
    ensures Flush(v, p, q, Mode(false, newlines)) == Verbatim(v[p..], newlines)
    decreases |v| - p
  {
    hide NextPiece, Verbatim, AfterPiece, Flush;
    if p == |v| {
      VerbatimEnd(v, q, newlines);
    } else {
      var next := AfterPiece(v, p, newlines);
      VerbatimPiece(v, p, newlines);
      FlushPiece(v, p, q, Mode(false, newlines), next, if newlines && v[p] == CR then [LF] else [v[p]]);
      VerbatimFlush(v, next, q + 1, newlines);
      VerbatimStep(v, p, newlines);
    }
  }

  lemma VerbatimPiece(v: string, p: nat, newlines: bool)
    requires p < |v|
    ensures NextPiece(v, p, Mode(false, newlines)) ==
      Piece(AfterPiece(v, p, newlines), if newlines && v[p] == CR then [LF] else [v[p]])
  {
  }

  /** The same for values that are written unescaped. */
  lemma VerbatimRoundTrip(v: string, newlines: bool)
    ensures Flush(v, 0, 0, Mode(false, newlines)) == Verbatim(v, newlines)
    ensures UpToNul(Flush(v, 0, 0, Mode(false, newlines))) == v <==> if newlines then PlainValue(v) else NUL !in v
  {
    VerbatimFlush(v, 0, 0, newlines);
    assert v[0..] == v;
    FoldedIsSameIffPlain(v);
    CStrHasNoNul(v, 0);
    if NUL !in v { WholeCStr(v, 0); }
  }

  /** So no value with a CR comes back: what is read has none. PrintString does not escape it, and reading folds it. */
  lemma CarriageReturnIsLost(v: string, restricted: bool)
    requires CR in v
    ensures CR !in Flush(Escape(v, restricted), 0, 0, ESCAPED)
    ensures UpToNul(Flush(Escape(v, restricted), 0, 0, ESCAPED)) != v
  {
    EscapeRoundTrip(v, restricted);
    FoldedHasNoCr(v);
    PlainHas(v);
  }

  // ----- scanning what was printed -----

  lemma ReadsBack(s: string, p: nat, lit: string)
    requires At(s, p, lit) && p + |lit| <= |s|
    ensures s[p..p + |lit|] == lit
  {
    forall i | 0 <= i < |lit| ensures s[p..p + |lit|][i] == lit[i] { assert Ch(s, p + i) == lit[i]; }
  }

  lemma {:induction false} NameEndIs(s: string, p: nat, name: string, k: nat)
    requires At(s, p, name) && k <= |name| && p + |name| <= |s|
    requires (forall i :: 0 <= i < |name| ==> IsNameChar(name[i])) && !IsNameChar(Ch(s, p + |name|))
    ensures NameEnd(s, p + k) == p + |name|
    decreases |name| - k
  {
    if k < |name| {
      assert Ch(s, p + k) == name[k];
      NameEndIs(s, p, name, k + 1);
    }
  }

  /** The end tag follows the body, and does not occur in it before: ParseText stops exactly at the end. */
  lemma FindEndExact(s: string, p: nat, body: string, endTag: string)
    requires At(s, p, body + endTag) && NoNul(body) && NoNul(endTag) && endTag != "" && p + |body| <= |s|
    requires Lacks(body, endTag)
    requires forall i :: 0 <= i < |endTag| - 1 ==> endTag[i] != endTag[|endTag| - 1]
    ensures FindEnd(s, p, endTag) == Some(p + |body|)
  {
    hide FindEnd, Lacks, At, NoNul;
    AtParts(s, p, body, endTag);
    NoNulInside(s, p, body);
    FindEndFinds(s, p, endTag, p + |body|);
    var e := FindEnd(s, p, endTag).value;
    if e < p + |body| { NoEarlyEnd(s, p, body, endTag, e); }
  }

  lemma NoNulInside(s: string, p: nat, body: string)
    requires At(s, p, body) && NoNul(body) && p + |body| <= |s|
    ensures forall i :: p <= i < p + |body| ==> s[i] != NUL
  {
    forall i | p <= i < p + |body| ensures s[i] != NUL { assert Ch(s, p + (i - p)) == body[i - p]; }
  }

  lemma NoEarlyEnd(s: string, p: nat, body: string, endTag: string, e: nat)
    requires At(s, p, body) && At(s, p + |body|, endTag) && endTag != "" && p <= e < p + |body|
    requires Lacks(body, endTag)
    requires forall i :: 0 <= i < |endTag| - 1 ==> endTag[i] != endTag[|endTag| - 1]
    ensures !At(s, e, endTag)
  {
    var i, n := e - p, |endTag|;
    if i + n <= |body| {
      assert !At(body, i, endTag);
      var j :| 0 <= j < n && Ch(body, i + j) != endTag[j];
      assert Ch(s, p + (i + j)) == body[i + j];
      assert Ch(s, e + j) != endTag[j];
    } else {
      var j := i + n - 1 - |body|;
      assert Ch(s, p + |body| + j) == endTag[j];
      assert Ch(s, e + (n - 1)) != endTag[n - 1];
    }
  }

  /** An escaped attribute value has none of the characters that end one, in either kind of quotes, or end a tag. */
  lemma QuotesEscaped(v: string)
    requires NoNul(v)
    ensures NoNul(Escape(v, false)) && Lacks(Escape(v, false), "\"") && Lacks(Escape(v, false), "\'")
    ensures Lacks(Escape(v, false), "<") && Lacks(Escape(v, false), ">")
  {
    var e := Escape(v, false);
    forall i | 0 <= i < |e|
      ensures e[i] != NUL && !At(e, i, "\"") && !At(e, i, "\'") && !At(e, i, "<") && !At(e, i, ">")
    {
      EscapeNoNul(v, false, i);
      AtChar(e, i, '\"');
      AtChar(e, i, '\'');
      AtChar(e, i, '<');
      AtChar(e, i, '>');
    }
  }

  /** An escaped text has no '<', and no '>' either, so that "]]>" never stands in it. */
  lemma MarkupEscaped(v: string)
    requires NoNul(v)
    ensures NoNul(Escape(v, true)) && Lacks(Escape(v, true), "<") && Lacks(Escape(v, true), ">")
  {
    var e := Escape(v, true);
    forall i | 0 <= i < |e| ensures e[i] != NUL && !At(e, i, "<") && !At(e, i, ">") {
      EscapeNoNul(v, true, i);
      AtChar(e, i, '<');
      AtChar(e, i, '>');
    }
  }

  // ----- attributes -----

  lemma NameBack(s: string, p: nat, name: string)
    requires At(s, p, name) && ValidName(name) && p + |name| <= |s| && !IsNameChar(Ch(s, p + |name|))
    ensures p < |s| && IsNameStartChar(s[p]) && NameEnd(s, p) == p + |name|
    ensures Raw(s, Segment(p, p + |name|, NAME)) == name && View(s, Segment(p, p + |name|, NAME)) == name
  {
    assert Ch(s, p + 0) == name[0];
    NameEndIs(s, p, name, 0);
    ReadsBack(s, p, name);
    VerbatimRoundTrip(name, false);
  }

  lemma AttributeLayout(s: string, p: nat, a: Attribute<string>)
    requires At(s, p, PrintAttribute(a))
    ensures var e := p + 1 + |a.name|;
      && Ch(s, p) == ' ' && At(s, p + 1, a.name) && Ch(s, e) == '=' && Ch(s, e + 1) == '\"'
      && At(s, e + 2, Escape(a.value, false) + "\"")
  {
    var E := Escape(a.value, false);
    var e := p + 1 + |a.name|;
    AttributeGrouped(a.name, E);
    hide Escape, At;
    AtParts(s, p, " ", a.name + ("=\"" + (E + "\"")));
    AtParts(s, p + 1, a.name, "=\"" + (E + "\""));
    AtParts(s, e, "=\"", E + "\"");
    AtPair(s, p, e);
  }

  lemma AttributeGrouped(name: string, value: string)
    ensures " " + name + "=\"" + value + "\"" == " " + (name + ("=\"" + (value + "\"")))
  {
  }

  lemma AtPair(s: string, p: nat, e: nat)
    requires At(s, p, " ") && At(s, e, "=\"")
    ensures Ch(s, p) == ' ' && Ch(s, e) == '=' && Ch(s, e + 1) == '\"'
  {
    assert Ch(s, p + 0) == " "[0] && Ch(s, e + 0) == "=\""[0] && Ch(s, e + 1) == "=\""[1];
  }

  lemma AttributeParsed(s: string, p: nat, a: Attribute<string>)
    requires At(s, p, PrintAttribute(a)) && p + |PrintAttribute(a)| <= |s| && ValidName(a.name) && NoNul(a.value)
    ensures SkipWhiteSpace(s, p) == p + 1 && p + 1 < |s| && IsNameStartChar(s[p + 1])
    ensures ParseAttribute(s, p + 1) == OneAttribute(AttributeAt(p + 1, a), p + |PrintAttribute(a)|)
  {
    hide Escape, FindEnd, NameEnd, SkipWhiteSpace, At, NoNul, Lacks, ValidName;
    var e := p + 1 + |a.name|;
    AttributeLayout(s, p, a);
    NothingToSkip(s, e);
    NothingToSkip(s, e + 1);
    NothingToSkip(s, p + 1);
    NameAfterQuote(s, p, a);
    QuotesEscaped(a.value);
    NoNulQuote();
    FindEndExact(s, e + 2, Escape(a.value, false), "\"");
  }

  lemma NameAfterQuote(s: string, p: nat, a: Attribute<string>)
    requires At(s, p + 1, a.name) && ValidName(a.name) && p + 1 + |a.name| <= |s|
    requires Ch(s, p) == ' ' && !IsNameChar(Ch(s, p + 1 + |a.name|))
    ensures SkipWhiteSpace(s, p) == p + 1 && p + 1 < |s| && IsNameStartChar(s[p + 1])
    ensures NameEnd(s, p + 1) == p + 1 + |a.name|
  {
    NameBack(s, p + 1, a.name);
    NothingToSkip(s, p + 1);
  }

  lemma NoNulQuote()
    ensures NoNul("\"")
  {
  }

  lemma NothingToSkip(s: string, p: nat)
    requires p <= |s|
    ensures !IsWhiteSpace(Ch(s, p)) ==> SkipWhiteSpace(s, p) == p
  {
  }

  lemma AttributeBack(s: string, p: nat, a: Attribute<string>)
    requires At(s, p, PrintAttribute(a)) && p + |PrintAttribute(a)| <= |s| && ValidName(a.name) && NoNul(a.value)
    ensures var at := AttributeAt(p + 1, a);
      Raw(s, at.name) == a.name && View(s, at.name) == a.name && View(s, at.value) == Folded(a.value)
  {
    hide Escape, Flush, CStr, Folded, PlainValue;
    AttributeLayout(s, p, a);
    NameBack(s, p + 1, a.name);
    var E := Escape(a.value, false);
    AtParts(s, p + 1 + |a.name| + 2, E, "\"");
    ReadsBack(s, p + 1 + |a.name| + 2, E);
    EscapeRoundTrip(a.value, false);
    FoldedIsRead(a.value);
  }

  function AttributeAt(n: nat, a: Attribute<string>): (r: Attribute<Segment>)
    ensures r.name.start == n && r.name.end == n + |a.name|
  {
    var e := n + |a.name|;
    Attribute(Segment(n, e, NAME), Segment(e + 2, e + 2 + |Escape(a.value, false)|, ESCAPED))
  }

  /** The attributes read so far are the first ones printed. */
  predicate AttributesSoFar(s: string, list: seq<Attribute<Segment>>, all: seq<Attribute<string>>) {
    && |list| <= |all|
    && (forall i :: 0 <= i < |list| ==>
          && list[i].name.start <= list[i].name.end <= |s|
          && Raw(s, list[i].name) == all[i].name
          && View(s, list[i].name) == all[i].name && View(s, list[i].value) == Folded(all[i].value))
  }

  lemma {:induction false} ViewSoFar(s: string, list: seq<Attribute<Segment>>, all: seq<Attribute<string>>)
    requires AttributesSoFar(s, list, all) && |list| == |all|
    ensures ViewAttributes(s, list) == NormalAttributes(all)
  {
    hide View;
    if list != [] {
      assert AttributesSoFar(s, list[1..], all[1..]) by {
        assert forall i :: 0 <= i < |list[1..]| ==> list[1..][i] == list[i + 1] && all[1..][i] == all[i + 1];
      }
      ViewSoFar(s, list[1..], all[1..]);
      assert all == [all[0]] + all[1..];
    }
  }

  lemma OneMoreAttribute(s: string, p: nat, list: seq<Attribute<Segment>>, all: seq<Attribute<string>>)
    requires AttributesSoFar(s, list, all) && |list| < |all| && ValidAttributes(all)
    requires At(s, p, PrintAttribute(all[|list|])) && p + |PrintAttribute(all[|list|])| <= |s|
    ensures var a := AttributeAt(p + 1, all[|list|]);
      && AttributesSoFar(s, list + [a], all)
      && ParseAttributes(s, p, list) == ParseAttributes(s, p + |PrintAttribute(all[|list|])|, list + [a])
  {
    hide View, AttributeAt, PrintAttribute, ParseAttribute, SkipWhiteSpace;
    var a := AttributeAt(p + 1, all[|list|]);
    AttributeParsed(s, p, all[|list|]);
    AttributeBack(s, p, all[|list|]);
    NameIsNew(s, list, all, a.name);
    TakeAttribute(s, p, list, a, p + |PrintAttribute(all[|list|])|);
  }

  lemma NameIsNew(s: string, list: seq<Attribute<Segment>>, all: seq<Attribute<string>>, name: Segment)
    requires AttributesSoFar(s, list, all) && |list| < |all| && ValidAttributes(all)
    requires name.start <= name.end <= |s| && Raw(s, name) == all[|list|].name
    ensures !NameTaken(s, list, name)
  {
    hide View;
  }

  lemma TakeAttribute(s: string, p: nat, list: seq<Attribute<Segment>>, a: Attribute<Segment>, p': nat)
    requires p + 1 < |s| && SkipWhiteSpace(s, p) == p + 1 && IsNameStartChar(s[p + 1])
    requires ParseAttribute(s, p + 1) == OneAttribute(a, p') && !NameTaken(s, list, a.name)
    ensures ParseAttributes(s, p, list) == ParseAttributes(s, p', list + [a])
  {
    hide ParseAttribute, SkipWhiteSpace, NameTaken;
  }

  lemma AttributesBack(s: string, p: nat, list: seq<Attribute<Segment>>, all: seq<Attribute<string>>)
    returns (out: seq<Attribute<Segment>>)
    requires AttributesSoFar(s, list, all) && ValidAttributes(all)
    requires At(s, p, PrintAttributes(all[|list|..])) && p + |PrintAttributes(all[|list|..])| <= |s|
    ensures ViewAttributes(s, out) == NormalAttributes(all)
    ensures ParseAttributes(s, p, list) == ParseAttributes(s, p + |PrintAttributes(all[|list|..])|, out)
    decreases |all| - |list|
  {
    hide View, ParseAttributes, PrintAttribute, At, AttributeAt, ValidAttributes;
    assert |list| <= |all|;
    hide AttributesSoFar;
    if |list| == |all| {
      ViewSoFar(s, list, all);
      out := list;
    } else {
      var k := |list|;
      assert all[k..][1..] == all[k + 1..];
      AtParts(s, p, PrintAttribute(all[k]), PrintAttributes(all[k + 1..]));
      OneMoreAttribute(s, p, list, all);
      out := AttributesBack(s, p + |PrintAttribute(all[k])|, list + [AttributeAt(p + 1, all[k])], all);
    }
  }

  // ----- nodes -----

  lemma LeafBack(s: string, start: nat, v: string, endTag: string, error: XMLError, kind: LeafKind)
    requires At(s, start, v + endTag) && start + |v| + |endTag| <= |s| && NoNul(v)
    requires NoNul(endTag) && endTag != "" && Lacks(v, endTag)
    requires forall i :: 0 <= i < |endTag| - 1 ==> endTag[i] != endTag[|endTag| - 1]
    ensures var seg := Segment(start, start + |v|, VERBATIM);
      Leaf(s, start, endTag, error, kind) == One(MakeLeaf(kind, seg), OPEN, None, start + |v| + |endTag|) &&
        View(s, seg) == Folded(v)
  {
    hide FindEnd, Flush, CStr, Folded, At, Lacks, PlainValue;
    FindEndExact(s, start, v, endTag);
    AtParts(s, start, v, endTag);
    ReadsBack(s, start, v);
    VerbatimRoundTrip(v, true);
    FoldedIsRead(v);
  }

  /** The node comes back from p, and the cursor is left at its end. */
  predicate ComesBack(s: string, p: nat, n: Node<string>, depth: nat)
    requires p <= |s| && depth < MAX_ELEMENT_DEPTH
  {
    var r := ParseOne(s, p, depth);
    && r.One? && r.p == p + |PrintNode(n)| && ViewNode(s, r.node) == NormalNode(n) && r.closing != CLOSING
    && (r.node.Element? ==> !Mismatch(s, r.node.name, r.closing, r.endTag))
  }

  lemma CommentBack(s: string, p: nat, v: string, depth: nat)
    requires depth < MAX_ELEMENT_DEPTH && At(s, p, PrintNode(Comment(v))) && p + |PrintNode(Comment(v))| <= |s|
    requires NoNul(v) && Lacks(v, "-->")
    ensures ComesBack(s, p, Comment(v), depth)
  {
    hide FindEnd, View, At;
    assert PrintNode(Comment(v)) == "<!--" + (v + "-->");
    AtParts(s, p, "<!--", v + "-->");
    MarkAt(s, p, "<!--");
    LeafBack(s, p + 4, v, "-->", ParsingComment, CommentLeaf);
  }

  lemma CDataBack(s: string, p: nat, v: string, depth: nat)
    requires depth < MAX_ELEMENT_DEPTH && At(s, p, PrintNode(Text(v, true))) && p + |PrintNode(Text(v, true))| <= |s|
    requires NoNul(v) && Lacks(v, "]]>")
    ensures ComesBack(s, p, Text(v, true), depth)
  {
    hide FindEnd, View, At;
    assert PrintNode(Text(v, true)) == "<![CDATA[" + (v + "]]>");
    AtParts(s, p, "<![CDATA[", v + "]]>");
    MarkAt(s, p, "<![CDATA[");
    NotAt(s, p, "<!--", 2);
    LeafBack(s, p + 9, v, "]]>", ParsingCData, CDataLeaf);
  }

  lemma DeclarationBack(s: string, p: nat, v: string, depth: nat)
    requires depth < MAX_ELEMENT_DEPTH && At(s, p, PrintNode(Declaration(v))) && p + |PrintNode(Declaration(v))| <= |s|
    requires NoNul(v) && Lacks(v, "?>")
    ensures ComesBack(s, p, Declaration(v), depth)
  {
    hide FindEnd, View, At;
    assert PrintNode(Declaration(v)) == "<?" + (v + "?>");
    AtParts(s, p, "<?", v + "?>");
    MarkAt(s, p, "<?");
    LeafBack(s, p + 2, v, "?>", ParsingDeclaration, DeclarationLeaf);
  }

  lemma UnknownBack(s: string, p: nat, v: string, depth: nat)
    requires depth < MAX_ELEMENT_DEPTH && At(s, p, PrintNode(Unknown(v))) && p + |PrintNode(Unknown(v))| <= |s|
    requires NoNul(v) && Lacks(v, ">") && !At(v, 0, "--") && !At(v, 0, "[CDATA[")
    ensures ComesBack(s, p, Unknown(v), depth)
  {
    hide FindEnd, View, At;
    assert PrintNode(Unknown(v)) == "<!" + (v + ">");
    AtParts(s, p, "<!", v + ">");
    MarkAt(s, p, "<!");
    OtherMark(s, p, v, "<!--", "--");
    OtherMark(s, p, v, "<![CDATA[", "[CDATA[");
    LeafBack(s, p + 2, v, ">", ParsingUnknown, UnknownLeaf);
  }

  lemma MarkAt(s: string, p: nat, mark: string)
    requires At(s, p, mark) && |mark| >= 2 && mark[0] == '<' && mark[1] != NUL && p <= |s|
    ensures p < |s| && SkipWhiteSpace(s, p) == p && s[p] == '<' && Ch(s, p + 1) == mark[1]
    ensures |mark| > 2 ==> Ch(s, p + 2) == mark[2]
  {
    assert Ch(s, p + 0) == mark[0];
  }

  lemma NotAt(s: string, p: nat, lit: string, k: nat)
    requires k < |lit| && Ch(s, p + k) != lit[k]
    ensures !At(s, p, lit)
  {
  }

  /** Unknown markup that does not begin like a comment or CDATA is not taken for one. */
  lemma OtherMark(s: string, p: nat, v: string, mark: string, tail: string)
    requires At(s, p + 2, v + ">") && !At(v, 0, tail) && mark == "<!" + tail
    requires forall i :: 0 <= i < |tail| ==> tail[i] != '>'
    ensures !At(s, p, mark)
  {
    var i :| 0 <= i < |tail| && Ch(v, 0 + i) != tail[i];
    assert mark[i + 2] == tail[i];
    if i < |v| {
      assert Ch(s, p + 2 + i) == (v + ">")[i] == v[i];
      NotAt(s, p, mark, i + 2);
    } else {
      assert Ch(s, p + 2 + |v|) == (v + ">")[|v|] == '>';
      if |v| < |tail| {
        assert mark[|v| + 2] == tail[|v|];
        NotAt(s, p, mark, |v| + 2);
      }
    }
  }

  /** Markup goes on at e. */
  predicate Follow(s: string, e: nat) { Ch(s, e) == '<' && Ch(s, e + 1) != NUL }

  lemma {:induction false} EscapeShows(v: string, j: nat) returns (i: nat)
    requires j < |v| && !IsWhiteSpace(v[j])
    ensures i < |Escape(v, true)| && !IsWhiteSpace(Escape(v, true)[i])
  {
    var e := EscapeChar(v[0], true);
    if j == 0 {
      assert e[0] == Escape(v, true)[0];
      i := 0;
    } else {
      var k := EscapeShows(v[1..], j - 1);
      i := |e| + k;
    }
  }

  /** Leading white space of a text is kept: Identify backs up to it. */
  lemma TextBack(s: string, p: nat, v: string, depth: nat)
    requires depth < MAX_ELEMENT_DEPTH && At(s, p, Escape(v, true)) && p + |Escape(v, true)| <= |s|
    requires NoNul(v) && !AllWhiteSpace(v) && Follow(s, p + |Escape(v, true)|)
    ensures ComesBack(s, p, Text(v, false), depth)
  {
    hide Flush, CStr, FindEnd, Escape, Folded, PlainValue, Lacks, At;
    var E := Escape(v, true);
    var e := p + |E|;
    MarkupEscaped(v);
    TextStarts(s, p, v);
    MarkBehind(s, p, E);
    FindEndExact(s, p, E, "<");
    ReadsBack(s, p, E);
    EscapeRoundTrip(v, true);
    FoldedIsRead(v);
  }

  lemma MarkBehind(s: string, p: nat, body: string)
    requires At(s, p, body) && Ch(s, p + |body|) == '<'
    ensures At(s, p, body + "<")
  {
    forall i | 0 <= i < |body| + 1 ensures Ch(s, p + i) == (body + "<")[i] {}
  }

  lemma TextStarts(s: string, p: nat, v: string)
    requires At(s, p, Escape(v, true)) && p + |Escape(v, true)| <= |s| && NoNul(v) && !AllWhiteSpace(v)
    ensures Ch(s, SkipWhiteSpace(s, p)) != NUL && Ch(s, SkipWhiteSpace(s, p)) != '<'
  {
    hide Escape;
    var j :| 0 <= j < |v| && !IsWhiteSpace(v[j]);
    var i := EscapeShows(v, j);
    var q := SkipWhiteSpace(s, p);
    assert Ch(s, p + i) == Escape(v, true)[i];
    assert q <= p + i;
    assert Ch(s, p + (q - p)) == Escape(v, true)[q - p];
    EscapeNoNul(v, true, q - p);
  }

  /** An end tag closes the list of children it follows. */
  lemma EndTagBack(s: string, p: nat, name: string, depth: nat, top: bool, done: seq<Node<Segment>>)
    requires depth < MAX_ELEMENT_DEPTH && At(s, p, "</" + name + ">") && p + |name| + 3 <= |s| && ValidName(name)
    ensures ParseNodes(s, p, depth, top, done) == Closed(done, Segment(p + 2, p + 2 + |name|, NAME), p + |name| + 3)
    ensures Raw(s, Segment(p + 2, p + 2 + |name|, NAME)) == name
  {
    hide NameEnd, View, At, ParseElement, ParseNodes;
    assert "</" + name + ">" == "</" + (name + ">");
    AtParts(s, p, "</", name + ">");
    AtParts(s, p + 2, name, ">");
    MarkAt(s, p, "</");
    AtHead(s, p + 2 + |name|, ">");
    NameBack(s, p + 2, name);
    EndTagParsed(s, p, name, depth);
    EndTagBranch(s, p, depth);
    LoopCloses(s, p, depth, top, done);
  }

  lemma EndTagParsed(s: string, p: nat, name: string, depth: nat)
    requires depth < MAX_ELEMENT_DEPTH && Ch(s, p) == '<' && Ch(s, p + 1) == '/' && p + |name| + 3 <= |s|
    requires IsNameStartChar(Ch(s, p + 2)) && NameEnd(s, p + 2) == p + 2 + |name| && Ch(s, p + 2 + |name|) == '>'
    ensures ParseElement(s, p + 1, depth)
      == One(Element(Segment(p + 2, p + 2 + |name|, NAME), [], []), CLOSING, None, p + |name| + 3)
  {
    hide NameEnd;
    assert ParseAttributes(s, p + 2 + |name|, []) == Attributes([], p + |name| + 3, false);
  }

  lemma EndTagBranch(s: string, p: nat, depth: nat)
    requires p <= |s| && depth < MAX_ELEMENT_DEPTH && Ch(s, p) == '<' && Ch(s, p + 1) == '/'
    ensures ParseOne(s, p, depth) == ParseElement(s, p + 1, depth)
  {
    hide ParseElement, At, Leaf;
    NotAt(s, p, "<!--", 1);
    NotAt(s, p, "<![CDATA[", 1);
    NothingToSkip(s, p);
  }

  lemma LoopCloses(s: string, p: nat, depth: nat, top: bool, done: seq<Node<Segment>>)
    requires p <= |s| && depth < MAX_ELEMENT_DEPTH && Ch(s, p) != NUL
    requires ParseOne(s, p, depth).One? && ParseOne(s, p, depth).closing == CLOSING
    requires ParseOne(s, p, depth).node.Element?
    ensures ParseNodes(s, p, depth, top, done) == Closed(done, ParseOne(s, p, depth).node.name, ParseOne(s, p, depth).p)
  {
    hide ParseOne;
  }

  lemma StartTagLayout(s: string, p: nat, name: string, attributes: string, tail: string)
    requires At(s, p, "<" + name + attributes + tail) && p + 1 + |name| + |attributes| + |tail| <= |s|
    requires ValidName(name) && tail != "" && (tail[0] == '>' || tail[0] == '/')
    requires attributes == "" || attributes[0] == ' '
    ensures Ch(s, p) == '<' && At(s, p + 1, name) && !IsNameChar(Ch(s, p + 1 + |name|))
    ensures At(s, p + 1 + |name|, attributes) && At(s, p + 1 + |name| + |attributes|, tail)
  {
    var rest := attributes + tail;
    assert "<" + name + attributes + tail == "<" + (name + rest);
    AtParts(s, p, "<", name + rest);
    AtParts(s, p + 1, name, rest);
    AtParts(s, p + 1 + |name|, attributes, tail);
    AtHead(s, p, "<");
    AtHead(s, p + 1 + |name|, rest);
    assert rest[0] == if attributes == "" then tail[0] else attributes[0];
  }

  lemma AttributesHead(all: seq<Attribute<string>>)
    ensures PrintAttributes(all) == "" || PrintAttributes(all)[0] == ' '
  {
    if all != [] { assert PrintAttribute(all[0])[0] == ' '; }
  }

  /** Where ParseElement is after the start tag, up to the mark that ends it. */
  predicate StartTagRead(s: string, p: nat, name: string, out: seq<Attribute<Segment>>, all: seq<Attribute<string>>)
    requires p + 1 + |name| + |PrintAttributes(all)| <= |s|
  {
    var n, e := p + 1, p + 1 + |name|;
    && SkipWhiteSpace(s, p) == p && Ch(s, p) == '<' && SkipWhiteSpace(s, n) == n
    && IsNameStartChar(Ch(s, n)) && NameEnd(s, n) == e
    && Raw(s, Segment(n, e, NAME)) == name && View(s, Segment(n, e, NAME)) == name
    && ParseAttributes(s, e, []) == ParseAttributes(s, e + |PrintAttributes(all)|, out)
    && ViewAttributes(s, out) == NormalAttributes(all)
  }

  lemma StartTagBack(s: string, p: nat, name: string, all: seq<Attribute<string>>, tail: string)
    returns (out: seq<Attribute<Segment>>)
    requires At(s, p, "<" + name + PrintAttributes(all) + tail)
    requires p + 1 + |name| + |PrintAttributes(all)| + |tail| <= |s|
    requires ValidName(name) && ValidAttributes(all) && tail != "" && (tail[0] == '>' || tail[0] == '/')
    ensures StartTagRead(s, p, name, out, all) && At(s, p + 1 + |name| + |PrintAttributes(all)|, tail)
  {
    hide NameEnd, View, ParseAttributes, PrintAttributes, ViewAttributes, At;
    AttributesHead(all);
    StartTagLayout(s, p, name, PrintAttributes(all), tail);
    NameBack(s, p + 1, name);
    assert all[0..] == all;
    out := AttributesBack(s, p + 1 + |name|, [], all);
  }

  lemma ElementBranch(s: string, p: nat, depth: nat)
    requires p <= |s| && depth < MAX_ELEMENT_DEPTH
    requires SkipWhiteSpace(s, p) == p && Ch(s, p) == '<' && IsNameStartChar(Ch(s, p + 1))
    ensures ParseOne(s, p, depth) == ParseElement(s, p + 1, depth)
  {
    hide ParseElement;
    NotAt(s, p, "<!--", 1);
    NotAt(s, p, "<![CDATA[", 1);
  }

  lemma ElementViewed(s: string, p: nat, name: string, out: seq<Attribute<Segment>>, all: seq<Attribute<string>>,
                      nodes: seq<Node<Segment>>, children: seq<Node<string>>)
    requires p + 1 + |name| + |PrintAttributes(all)| <= |s| && StartTagRead(s, p, name, out, all)
    requires ViewNodes(s, nodes) == NormalNodes(children)
    ensures ViewNode(s, Element(Segment(p + 1, p + 1 + |name|, NAME), out, nodes)) ==
      NormalNode(Element(name, all, children))
  {
    hide NameEnd, View, PrintAttributes, ViewAttributes, ParseAttributes;
  }

  /** `<name attributes/>` */
  lemma EmptyElementBack(s: string, p: nat, name: string, all: seq<Attribute<string>>, depth: nat)
    requires depth < MAX_ELEMENT_DEPTH && ValidName(name) && ValidAttributes(all)
    requires At(s, p, PrintNode(Element(name, all, []))) && p + |PrintNode(Element(name, all, []))| <= |s|
    ensures ComesBack(s, p, Element(name, all, []), depth)
  {
    hide NameEnd, View, PrintAttributes, ViewAttributes, ViewNode, ParseOne, ParseElement, ParseAttributes, At;
    hide StartTagRead, SkipWhiteSpace, ValidName, ValidAttributes;
    assert PrintNode(Element(name, all, [])) == "<" + name + PrintAttributes(all) + "/>";
    var out := StartTagBack(s, p, name, all, "/>");
    SealedTag(s, p + 1 + |name| + |PrintAttributes(all)|, out);
    SealedParsed(s, p, name, all, out, depth);
    ElementBegins(s, p, name, out, all, depth);
    ElementViewed(s, p, name, out, all, [], []);
  }

  lemma ElementBegins(s: string, p: nat, name: string, out: seq<Attribute<Segment>>, all: seq<Attribute<string>>,
                      depth: nat)
    requires p + 1 + |name| + |PrintAttributes(all)| <= |s| && StartTagRead(s, p, name, out, all)
    requires p <= |s| && depth < MAX_ELEMENT_DEPTH
    ensures ParseOne(s, p, depth) == ParseElement(s, p + 1, depth)
  {
    hide NameEnd, View, PrintAttributes, ViewAttributes, ParseAttributes, ParseOne, ParseElement, SkipWhiteSpace;
    ElementBranch(s, p, depth);
  }

  lemma SealedParsed(s: string, p: nat, name: string, all: seq<Attribute<string>>, out: seq<Attribute<Segment>>,
                     depth: nat)
    requires p + 1 + |name| + |PrintAttributes(all)| + 2 <= |s| && StartTagRead(s, p, name, out, all)
    requires depth < MAX_ELEMENT_DEPTH
    requires var e := p + 1 + |name| + |PrintAttributes(all)|;
      ParseAttributes(s, e, out) == Attributes(out, e + 2, true)
    ensures ParseElement(s, p + 1, depth) ==
      One(Element(Segment(p + 1, p + 1 + |name|, NAME), out, []), CLOSED, None,
        p + 1 + |name| + |PrintAttributes(all)| + 2)
  {
    hide NameEnd, View, PrintAttributes, ViewAttributes, ParseAttributes, ParseDeep, SkipWhiteSpace;
  }

  lemma SealedTag(s: string, e: nat, out: seq<Attribute<Segment>>)
    requires At(s, e, "/>") && e + 2 <= |s|
    ensures ParseAttributes(s, e, out) == Attributes(out, e + 2, true)
  {
    AtHead(s, e, "/>");
    assert Ch(s, e + 1) == "/>"[1];
  }

  lemma OpenTag(s: string, e: nat, out: seq<Attribute<Segment>>, tail: string)
    requires At(s, e, tail) && tail != "" && tail[0] == '>' && e < |s|
    ensures ParseAttributes(s, e, out) == Attributes(out, e + 1, false)
  {
    AtHead(s, e, tail);
  }

  /** `<name attributes>children</name>`, given that the children come back. */
  lemma FullElementBack(s: string, p: nat, name: string, all: seq<Attribute<string>>, out: seq<Attribute<Segment>>,
                        body: string, nodes: seq<Node<Segment>>, children: seq<Node<string>>, depth: nat)
    requires depth + 1 < MAX_ELEMENT_DEPTH && ValidName(name)
    requires p + 1 + |name| + |PrintAttributes(all)| + 1 + |body| + |name| + 3 <= |s|
    requires StartTagRead(s, p, name, out, all)
    requires var e := p + 1 + |name| + |PrintAttributes(all)|;
      && ParseAttributes(s, e, out) == Attributes(out, e + 1, false) && Ch(s, e + 1) != NUL
      && At(s, e + 1 + |body|, "</" + name + ">")
      && ParseNodes(s, e + 1, depth + 1, false, []) == ParseNodes(s, e + 1 + |body|, depth + 1, false, nodes)
    requires ViewNodes(s, nodes) == NormalNodes(children) && children != [] && body == PrintNodes(children)
    ensures ComesBack(s, p, Element(name, all, children), depth)
  {
    hide NameEnd, View, PrintAttributes, ViewAttributes, ViewNodes, ViewNode, ParseOne, ParseNodes, ParseAttributes, At;
    hide PrintNodes, NormalNodes, NormalAttributes, ParseElement, SkipWhiteSpace, ValidName;
    var e := p + 1 + |name| + |PrintAttributes(all)|;
    var t := e + 1 + |body|;
    EndTagBack(s, t, name, depth + 1, false, nodes);
    ElementBranch(s, p, depth);
    ElementParsed(s, p, name, all, out, depth, nodes, Segment(t + 2, t + 2 + |name|, NAME), t + |name| + 3);
    ElementViewed(s, p, name, out, all, nodes, children);
  }

  lemma ElementParsed(s: string, p: nat, name: string, all: seq<Attribute<string>>, out: seq<Attribute<Segment>>,
                      depth: nat, nodes: seq<Node<Segment>>, endTag: Segment, q: nat)
    requires depth + 1 < MAX_ELEMENT_DEPTH
    requires p + 1 + |name| + |PrintAttributes(all)| + 1 <= |s| && StartTagRead(s, p, name, out, all)
    requires var e := p + 1 + |name| + |PrintAttributes(all)|;
      && ParseAttributes(s, e, out) == Attributes(out, e + 1, false) && Ch(s, e + 1) != NUL
      && ParseNodes(s, e + 1, depth + 1, false, []) == Closed(nodes, endTag, q)
    ensures ParseElement(s, p + 1, depth)
      == One(Element(Segment(p + 1, p + 1 + |name|, NAME), out, nodes), OPEN, Some(endTag), q)
  {
    hide NameEnd, View, PrintAttributes, ViewAttributes, ParseNodes, ParseAttributes;
  }

  // ----- the induction over the tree -----

  /** Every printed node but plain text begins with '<' and one more character. */
  lemma MarkupHead(s: string, p: nat, n: Node<string>, room: int)
    requires At(s, p, PrintNode(n)) && ValidNode(n, room) && !PlainText(n)
    ensures Follow(s, p)
  {
    hide PrintAttributes, PrintNodes, Escape, ValidAttributes;
    var lit := PrintNode(n);
    AtHead(s, p, lit);
    assert lit[0] == '<' && |lit| >= 2;
    assert lit[1] != NUL by {
      if n.Element? { assert lit[1] == n.name[0]; }
    }
    assert Ch(s, p + 1) == lit[1];
  }

  lemma {:induction false} NodeBack(s: string, p: nat, n: Node<string>, depth: nat)
    requires 1 <= depth < MAX_ELEMENT_DEPTH && ValidNode(n, 99 - depth)
    requires At(s, p, PrintNode(n)) && p + |PrintNode(n)| <= |s|
    requires PlainText(n) ==> !Blank(n) && Follow(s, p + |PrintNode(n)|)
    ensures ComesBack(s, p, n, depth)
    decreases n, 1
  {
    match n
    case Comment(v) => CommentBack(s, p, v, depth);
    case Unknown(v) => UnknownBack(s, p, v, depth);
    case Text(v, cdata) => if cdata { CDataBack(s, p, v, depth); } else { TextBack(s, p, v, depth); }
    case Element(name, all, children) =>
      if children == [] {
        EmptyElementBack(s, p, name, all, depth);
      } else {
        ElementBack(s, p, name, all, children, depth);
      }
  }

  lemma {:induction false} ElementBack(s: string, p: nat, name: string, all: seq<Attribute<string>>,
                                       children: seq<Node<string>>, depth: nat)
    requires 1 <= depth < MAX_ELEMENT_DEPTH && children != [] && ValidNode(Element(name, all, children), 99 - depth)
    requires At(s, p, PrintNode(Element(name, all, children)))
    requires p + |PrintNode(Element(name, all, children))| <= |s|
    ensures ComesBack(s, p, Element(name, all, children), depth)
    decreases children, 1
  {
    hide NameEnd, View, PrintAttributes, ViewAttributes, ViewNode, ParseOne, ParseNodes, ParseAttributes, At;
    hide ComesBack, PrintNodes;
    var body, close := PrintNodes(children), "</" + name + ">";
    var e := p + 1 + |name| + |PrintAttributes(all)|;
    var tail := ">" + (body + close);
    assert PrintNode(Element(name, all, children)) == "<" + name + PrintAttributes(all) + tail;
    var out := StartTagBack(s, p, name, all, tail);
    OpenTag(s, e, out, tail);
    AtParts(s, e, ">", body + close);
    AtParts(s, e + 1, body, close);
    MarkAt(s, e + 1 + |body|, close);
    var nodes := NodesBack(s, e + 1, children, depth + 1, []);
    assert [] + nodes == nodes;
    ChildrenStart(s, e + 1, children, 98 - depth);
    FullElementBack(s, p, name, all, out, body, nodes, children, depth);
  }

  lemma ChildrenStart(s: string, p: nat, children: seq<Node<string>>, room: int)
    requires ValidNodes(children, room) && At(s, p, PrintNodes(children))
    requires Ch(s, p + |PrintNodes(children)|) == '<'
    ensures Ch(s, p) != NUL
  {
    hide PrintNode, At;
    if children != [] {
      var n := children[0];
      AtParts(s, p, PrintNode(n), PrintNodes(children[1..]));
      if PlainText(n) {
        TextFront(s, p, n.value);
        if |children| > 1 { FrontOfNext(s, p, children, room); }
      } else {
        MarkupHead(s, p, n, room);
      }
    }
  }

  lemma TextFront(s: string, p: nat, v: string)
    requires NoNul(v) && At(s, p, PrintNode(Text(v, false)))
    ensures v != "" ==> Ch(s, p) != NUL
    ensures |PrintNode(Text(v, false))| == 0 <==> v == ""
  {
    if v != "" {
      EscapeNoNul(v, true, 0);
      AtHead(s, p, Escape(v, true));
    }
  }

  /** Markup follows a text that is not the last of its siblings. */
  lemma FrontOfNext(s: string, p: nat, ns: seq<Node<string>>, room: int)
    requires |ns| > 1 && ValidNodes(ns, room) && PlainText(ns[0]) && At(s, p, PrintNodes(ns))
    ensures Follow(s, p + |PrintNode(ns[0])|)
  {
    hide PrintNode, At;
    AtParts(s, p, PrintNode(ns[0]), PrintNodes(ns[1..]));
    AtParts(s, p + |PrintNode(ns[0])|, PrintNode(ns[1]), PrintNodes(ns[2..]));
    MarkupHead(s, p + |PrintNode(ns[0])|, ns[1], room);
  }

  lemma {:induction false} BlankEscape(v: string)
    requires AllWhiteSpace(v)
    ensures Escape(v, true) == v
  {
    if v != "" {
      BlankEscape(v[1..]);
      assert v == [v[0]] + v[1..];
    }
  }

  lemma {:induction false} BlankSkipped(s: string, p: nat, v: string)
    requires At(s, p, v) && AllWhiteSpace(v) && p + |v| <= |s|
    ensures SkipWhiteSpace(s, p) == SkipWhiteSpace(s, p + |v|)
    decreases |v|
  {
    if v != "" {
      AtHead(s, p, v);
      AtParts(s, p, [v[0]], v[1..]);
      BlankSkipped(s, p + 1, v[1..]);
    }
  }

  /** A blank text in front of markup is passed over. */
  lemma BlankIsDropped(s: string, p: nat, n: Node<string>, depth: nat, top: bool, done: seq<Node<Segment>>)
    requires depth < MAX_ELEMENT_DEPTH && Blank(n) && NoNul(n.value)
    requires At(s, p, PrintNode(n)) && p + |PrintNode(n)| <= |s| && Follow(s, p + |PrintNode(n)|)
    ensures ParseNodes(s, p, depth, top, done) == ParseNodes(s, p + |PrintNode(n)|, depth, top, done)
  {
    hide At, ParseNodes, AllWhiteSpace, NoNul, Follow;
    BlankEscape(n.value);
    BlankRun(s, p, n.value, depth, top, done);
  }

  lemma BlankRun(s: string, p: nat, v: string, depth: nat, top: bool, done: seq<Node<Segment>>)
    requires depth < MAX_ELEMENT_DEPTH && AllWhiteSpace(v) && NoNul(v)
    requires At(s, p, v) && p + |v| <= |s| && Follow(s, p + |v|)
    ensures ParseNodes(s, p, depth, top, done) == ParseNodes(s, p + |v|, depth, top, done)
  {
    hide ParseNodes, SkipWhiteSpace, ParseOne;
    if v != "" {
      AtHead(s, p, v);
      assert Ch(s, p) != NUL;
      hide At, NoNul, AllWhiteSpace;
      BlankSkipped(s, p, v);
      NothingToSkip(s, p + |v|);
      SameNode(s, p, p + |v|, depth);
      SameLoop(s, p, p + |v|, depth, top, done);
    }
  }

  lemma SameLoop(s: string, p: nat, p': nat, depth: nat, top: bool, done: seq<Node<Segment>>)
    requires p <= |s| && p' <= |s| && depth < MAX_ELEMENT_DEPTH && Ch(s, p) != NUL && Ch(s, p') != NUL
    requires ParseOne(s, p, depth) == ParseOne(s, p', depth)
    ensures ParseNodes(s, p, depth, top, done) == ParseNodes(s, p', depth, top, done)
  {
    hide ParseOne, Mismatch, OnlyDeclarations;
  }

  lemma SameNode(s: string, p: nat, p': nat, depth: nat)
    requires depth < MAX_ELEMENT_DEPTH && p <= p' <= |s| && SkipWhiteSpace(s, p) == SkipWhiteSpace(s, p') == p'
    requires Ch(s, p') == '<'
    ensures ParseOne(s, p, depth) == ParseOne(s, p', depth)
  {
    hide ParseElement, SkipWhiteSpace, At, Leaf;
    assert Identify(s, p) == Identify(s, p');
    hide Identify;
  }

  /** Siblings come back, whatever was read before them; an end tag or other markup has to follow. */
  lemma {:induction false} NodesBack(s: string, p: nat, ns: seq<Node<string>>, depth: nat, done: seq<Node<Segment>>)
    returns (out: seq<Node<Segment>>)
    requires 1 <= depth < MAX_ELEMENT_DEPTH && ValidNodes(ns, 99 - depth)
    requires At(s, p, PrintNodes(ns)) && p + |PrintNodes(ns)| <= |s| && Follow(s, p + |PrintNodes(ns)|)
    ensures ViewNodes(s, out) == NormalNodes(ns)
    ensures ParseNodes(s, p, depth, false, done) == ParseNodes(s, p + |PrintNodes(ns)|, depth, false, done + out)
    decreases ns, 0
  {
    hide ParseOne, ViewNode, PrintNode, At, ParseNodes;
    if ns == [] {
      out := [];
      assert done + [] == done;
    } else {
      var n, p' := ns[0], p + |PrintNode(ns[0])|;
      AtParts(s, p, PrintNode(n), PrintNodes(ns[1..]));
      if PlainText(n) && |ns| > 1 { FrontOfNext(s, p, ns, 99 - depth); }
      if Blank(n) {
        BlankIsDropped(s, p, n, depth, false, done);
        out := NodesBack(s, p', ns[1..], depth, done);
      } else {
        NodeBack(s, p, n, depth);
        var node := NodeRead(s, p, n, depth, false, done);
        var rest := NodesBack(s, p', ns[1..], depth, done + [node]);
        out := [node] + rest;
        assert done + out == done + [node] + rest;
        assert out[1..] == rest && ns == [n] + ns[1..];
      }
    }
  }

  lemma NodeRead(s: string, p: nat, n: Node<string>, depth: nat, top: bool, done: seq<Node<Segment>>)
    returns (node: Node<Segment>)
    requires p <= |s| && depth < MAX_ELEMENT_DEPTH && ComesBack(s, p, n, depth)
    requires n.Declaration? ==> top && forall i :: 0 <= i < |done| ==> done[i].Declaration?
    ensures ViewNode(s, node) == NormalNode(n)
    ensures p + |PrintNode(n)| <= |s|
    ensures ParseNodes(s, p, depth, top, done) == ParseNodes(s, p + |PrintNode(n)|, depth, top, done + [node])
  {
    hide PrintNode, View, ViewNode, NormalNode, ParseOne, Mismatch, ParseNodes, OnlyDeclarations;
    node := ParseOne(s, p, depth).node;
    OneStarts(s, p, depth);
    SameKind(s, node, n);
    if node.Declaration? { DeclarationsOnly(done); }
    LoopTakes(s, p, depth, top, done);
  }

  lemma DeclarationsOnly(done: seq<Node<Segment>>)
    requires forall i :: 0 <= i < |done| ==> done[i].Declaration?
    ensures OnlyDeclarations(done)
  {
  }

  lemma LoopTakes(s: string, p: nat, depth: nat, top: bool, done: seq<Node<Segment>>)
    requires p <= |s| && depth < MAX_ELEMENT_DEPTH && Ch(s, p) != NUL
    requires var r := ParseOne(s, p, depth);
      && r.One? && r.closing != CLOSING && (r.node.Element? ==> !Mismatch(s, r.node.name, r.closing, r.endTag))
      && (r.node.Declaration? ==> top && OnlyDeclarations(done))
    ensures var r := ParseOne(s, p, depth);
      ParseNodes(s, p, depth, top, done) == ParseNodes(s, r.p, depth, top, done + [r.node])
  {
    hide ParseOne, Mismatch, OnlyDeclarations;
  }

  lemma SameKind(s: string, node: Node<Segment>, n: Node<string>)
    requires ViewNode(s, node) == NormalNode(n)
    ensures node.Declaration? <==> n.Declaration?
  {
  }

  lemma OneStarts(s: string, p: nat, depth: nat)
    requires p <= |s| && depth < MAX_ELEMENT_DEPTH && ParseOne(s, p, depth).One?
    ensures Ch(s, p) != NUL
  {
    hide ParseElement, Leaf, FindEnd, At;
  }

  // ----- documents -----

  /** The last node is a text, with no markup after it to end it. */
  predicate EndsInText(ns: seq<Node<string>>) {
    ns != [] && PlainText(ns[|ns| - 1]) && !Blank(ns[|ns| - 1])
  }

  /** What the loop makes of the end of the input after ns. */
  predicate AtTheEnd(s: string, loop: Loop, ns: seq<Node<string>>, done: seq<Node<Segment>>, out: seq<Node<Segment>>) {
    if EndsInText(ns) then loop == Failed(ParsingText)
    else loop == Ended(done + out) && ViewNodes(s, out) == NormalNodes(ns)
  }

  lemma AfterOne(s: string, loop: Loop, ns: seq<Node<string>>, done: seq<Node<Segment>>, node: Node<Segment>,
                 out: seq<Node<Segment>>)
    requires ns != [] && !Blank(ns[0]) && ViewNode(s, node) == NormalNode(ns[0])
    requires AtTheEnd(s, loop, ns[1..], done + [node], out) && (PlainText(ns[0]) ==> |ns| > 1)
    ensures AtTheEnd(s, loop, ns, done, [node] + out)
  {
    hide ViewNode, NormalNode;
    assert done + ([node] + out) == done + [node] + out;
    assert ([node] + out)[1..] == out;
    EndsAlike(ns);
  }

  lemma EndsAlike(ns: seq<Node<string>>)
    requires |ns| > 0 && (|ns| == 1 ==> !PlainText(ns[0]) || Blank(ns[0]))
    ensures EndsInText(ns) <==> EndsInText(ns[1..])
  {
    if |ns| > 1 { assert ns[1..][|ns| - 2] == ns[|ns| - 1]; }
  }

  /** A text that nothing ends is an error, unless it is blank. */
  lemma LastText(s: string, p: nat, v: string, top: bool, done: seq<Node<Segment>>)
    requires p <= |s| && At(s, p, PrintNode(Text(v, false))) && p + |PrintNode(Text(v, false))| <= |s| && NoNul(v)
    requires Ch(s, p + |PrintNode(Text(v, false))|) == NUL
    ensures ParseNodes(s, p, 1, top, done) == if AllWhiteSpace(v) then Ended(done) else Failed(ParsingText)
  {
    TextFront(s, p, v);
    hide At, Escape;
    if AllWhiteSpace(v) {
      BlankEscape(v);
      BlankSkipped(s, p, v);
      NothingToSkip(s, p + |v|);
      assert Identify(s, p) == Simple(NoNode);
    } else {
      EndlessText(s, p, v);
    }
    hide Identify, AllWhiteSpace, SkipWhiteSpace;
  }

  lemma EndlessText(s: string, p: nat, v: string)
    requires At(s, p, Escape(v, true)) && p + |Escape(v, true)| <= |s| && NoNul(v) && !AllWhiteSpace(v)
    requires Ch(s, p + |Escape(v, true)|) == NUL
    ensures Identify(s, p) == Simple(Fail(ParsingText))
  {
    hide Escape, SkipWhiteSpace, FindEnd, At, AllWhiteSpace, Lacks;
    TextStarts(s, p, v);
    MarkupEscaped(v);
    NoEnd(s, p, Escape(v, true), '<');
  }

  lemma {:induction false} NoEnd(s: string, p: nat, body: string, c: char)
    requires At(s, p, body) && p + |body| <= |s| && Ch(s, p + |body|) == NUL && Lacks(body, [c]) && c != NUL
    ensures FindEnd(s, p, [c]) == None
    decreases |body|
  {
    if body != "" && Ch(s, p) != NUL {
      AtHead(s, p, body);
      AtChar(body, 0, c);
      AtChar(s, p, c);
      AtParts(s, p, [body[0]], body[1..]);
      forall i | 0 <= i < |body[1..]| ensures !At(body[1..], i, [c]) {
        AtChar(body[1..], i, c);
        AtChar(body, i + 1, c);
      }
      NoEnd(s, p + 1, body[1..], c);
    }
  }

  lemma {:induction false} BodyBack(s: string, p: nat, ns: seq<Node<string>>, done: seq<Node<Segment>>)
    returns (out: seq<Node<Segment>>)
    requires ValidNodes(ns, 98) && At(s, p, PrintNodes(ns)) && p + |PrintNodes(ns)| <= |s|
    requires Ch(s, p + |PrintNodes(ns)|) == NUL
    ensures AtTheEnd(s, ParseNodes(s, p, 1, true, done), ns, done, out)
    decreases |ns|
  {
    hide ParseOne, ViewNode, PrintNode, At, ParseNodes, AtTheEnd, NormalNode;
    out := [];
    if ns == [] {
      InputEnds(s, p, done, ns);
    } else {
      var n, p' := ns[0], p + |PrintNode(ns[0])|;
      AtParts(s, p, PrintNode(n), PrintNodes(ns[1..]));
      if PlainText(n) && |ns| == 1 {
        LastText(s, p, n.value, true, done);
        LastTextEnds(s, p, ns, done);
      } else {
        if PlainText(n) { FrontOfNext(s, p, ns, 98); }
        if Blank(n) {
          BlankIsDropped(s, p, n, 1, true, done);
          out := BodyBack(s, p', ns[1..], done);
          DroppedAtTheEnd(s, ParseNodes(s, p, 1, true, done), ns, done, out);
        } else {
          NodeBack(s, p, n, 1);
          var node := NodeRead(s, p, n, 1, true, done);
          var rest := BodyBack(s, p', ns[1..], done + [node]);
          AfterOne(s, ParseNodes(s, p, 1, true, done), ns, done, node, rest);
          out := [node] + rest;
        }
      }
    }
  }

  lemma DroppedAtTheEnd(s: string, loop: Loop, ns: seq<Node<string>>, done: seq<Node<Segment>>,
                        out: seq<Node<Segment>>)
    requires |ns| > 1 && Blank(ns[0]) && AtTheEnd(s, loop, ns[1..], done, out)
    ensures AtTheEnd(s, loop, ns, done, out)
  {
    EndsAlike(ns);
  }

  lemma LastTextEnds(s: string, p: nat, ns: seq<Node<string>>, done: seq<Node<Segment>>)
    requires |ns| == 1 && PlainText(ns[0]) && p <= |s|
    requires ParseNodes(s, p, 1, true, done) == if AllWhiteSpace(ns[0].value) then Ended(done) else Failed(ParsingText)
    ensures AtTheEnd(s, ParseNodes(s, p, 1, true, done), ns, done, [])
  {
    hide ParseNodes;
    assert done + [] == done;
    assert NormalNodes(ns[1..]) == [];
  }

  lemma InputEnds(s: string, p: nat, done: seq<Node<Segment>>, ns: seq<Node<string>>)
    requires p <= |s| && Ch(s, p) == NUL && ns == []
    ensures AtTheEnd(s, ParseNodes(s, p, 1, true, done), ns, done, [])
  {
    assert done + [] == done;
  }

  lemma {:induction false} TopBack(s: string, p: nat, ns: seq<Node<string>>, done: seq<Node<Segment>>)
    returns (out: seq<Node<Segment>>)
    requires WellFormed(ns) && At(s, p, PrintNodes(ns)) && p + |PrintNodes(ns)| <= |s|
    requires Ch(s, p + |PrintNodes(ns)|) == NUL
    requires forall i :: 0 <= i < |done| ==> done[i].Declaration?
    ensures AtTheEnd(s, ParseNodes(s, p, 1, true, done), ns, done, out)
    decreases |ns|
  {
    hide ParseOne, PrintNode, At, View, ParseNodes, ComesBack, AtTheEnd, NormalNode, ViewNode;
    if ns == [] || !ns[0].Declaration? {
      out := BodyBack(s, p, ns, done);
    } else {
      AtParts(s, p, PrintNode(ns[0]), PrintNodes(ns[1..]));
      DeclarationBack(s, p, ns[0].value, 1);
      var node := NodeRead(s, p, ns[0], 1, true, done);
      SameKind(s, node, ns[0]);
      var rest := TopBack(s, p + |PrintNode(ns[0])|, ns[1..], done + [node]);
      AfterOne(s, ParseNodes(s, p, 1, true, done), ns, done, node, rest);
      out := [node] + rest;
    }
  }

  // ----- the start of a document -----

  /** A first text without what a parse skips at the start of its input. */
  function Trimmed(v: string): (r: string)
    ensures |r| <= |v|
  {
    v[SkipBom(v, SkipWhiteSpace(v, 0))..]
  }

  /** The document that is left to parse then. Behind a byte order mark nothing is skipped. */
  function FromStart(bom: bool, doc: seq<Node<string>>): (r: seq<Node<string>>)
    ensures |r| == |doc|
  {
    if !bom && doc != [] && PlainText(doc[0]) then [Text(Trimmed(doc[0].value), false)] + doc[1..] else doc
  }

  /** Where the escaped text is, c is found exactly when the text itself has it there. */
  lemma SameChar(s: string, v: string, p: nat, k: nat, c: char)
    requires k <= |v| && At(s, p, Escape(v[k..], true)) && !Flagged(c, true) && c != NUL
    requires Ch(s, p + |Escape(v[k..], true)|) != c
    ensures Ch(s, p) == c <==> Ch(v, k) == c
    ensures Ch(s, p) == c ==>
      At(s, p + 1, Escape(v[k + 1..], true)) && |Escape(v[k..], true)| == 1 + |Escape(v[k + 1..], true)|
  {
    EscapeShowsNext(s, p, v[k..], true);
    if k < |v| && v[k] == c {
      assert v[k..][1..] == v[k + 1..];
      AtParts(s, p, [c], Escape(v[k + 1..], true));
    }
  }

  lemma {:induction false} SameSkip(s: string, v: string, p: nat, k: nat)
    requires k <= |v| && p + |Escape(v[k..], true)| <= |s| && At(s, p, Escape(v[k..], true))
    requires !IsWhiteSpace(Ch(s, p + |Escape(v[k..], true)|))
    ensures var e := SkipWhiteSpace(v, k);
      && SkipWhiteSpace(s, p) == p + (e - k) && At(s, p + (e - k), Escape(v[e..], true))
      && |Escape(v[k..], true)| == (e - k) + |Escape(v[e..], true)|
    decreases |v| - k
  {
    hide Escape, At;
    var c := Ch(s, p);
    EscapeFirst(s, v, p, k);
    if IsWhiteSpace(c) {
      SameChar(s, v, p, k, c);
      SameSkip(s, v, p + 1, k + 1);
    }
  }

  lemma EscapeFirst(s: string, v: string, p: nat, k: nat)
    requires k <= |v| && At(s, p, Escape(v[k..], true)) && !IsWhiteSpace(Ch(s, p + |Escape(v[k..], true)|))
    ensures IsWhiteSpace(Ch(s, p)) <==> IsWhiteSpace(Ch(v, k))
  {
    EscapeShowsNext(s, p, v[k..], true);
  }

  lemma SameBom(s: string, v: string, p: nat, k: nat)
    requires k <= |v| && p + |Escape(v[k..], true)| <= |s| && At(s, p, Escape(v[k..], true))
    requires Ch(s, p + |Escape(v[k..], true)|) == NUL || Ch(s, p + |Escape(v[k..], true)|) == '<'
    ensures var e := SkipBom(v, k);
      && SkipBom(s, p) == p + (e - k) && At(s, p + (e - k), Escape(v[e..], true))
      && |Escape(v[k..], true)| == (e - k) + |Escape(v[e..], true)|
  {
    hide Escape, At;
    SameChar(s, v, p, k, '\U{EF}');
    if Ch(s, p) == '\U{EF}' {
      SameChar(s, v, p + 1, k + 1, '\U{BB}');
      if Ch(s, p + 1) == '\U{BB}' { SameChar(s, v, p + 2, k + 2, '\U{BF}'); }
    }
  }

  /** Where the parse of a printed document begins, rest is what is left to read. */
  predicate Begins(s: string, rest: seq<Node<string>>) {
    var p := SkipBom(s, SkipWhiteSpace(s, 0));
    && At(s, p, PrintNodes(rest)) && p + |PrintNodes(rest)| <= |s| && Ch(s, p + |PrintNodes(rest)|) == NUL
    && WellFormed(rest) && (Ch(s, p) == NUL <==> PrintNodes(rest) == "")
  }

  /** A byte order mark is read when one was written, or when the first text begins with one. */
  predicate BomShown(bom: bool, doc: seq<Node<string>>) {
    bom || (doc != [] && PlainText(doc[0]) && BomRead(doc[0].value))
  }

  /** Behind a byte order mark it begins with the document. */
  lemma BehindBom(s: string, doc: seq<Node<string>>)
    requires WellFormed(doc) && s == PrintDocument(true, doc) + [NUL]
    ensures Begins(s, doc) && BomRead(s)
  {
    hide WellFormed, PrintNodes;
    assert s == BOM + (PrintNodes(doc) + [NUL]);
    assert SkipWhiteSpace(s, 0) == 0 && SkipBom(s, 0) == 3;
    AtHere(s, 3, PrintNodes(doc));
    FrontShows(s, 3, doc);
  }

  lemma AtHere(s: string, p: nat, lit: string)
    requires p + |lit| <= |s| && s[p..p + |lit|] == lit
    ensures At(s, p, lit)
  {
    forall i | 0 <= i < |lit| ensures Ch(s, p + i) == lit[i] { assert s[p..p + |lit|][i] == lit[i]; }
  }

  /** The first character of a printed document is no NUL. */
  lemma FrontShows(s: string, p: nat, doc: seq<Node<string>>)
    requires WellFormed(doc) && At(s, p, PrintNodes(doc)) && Ch(s, p + |PrintNodes(doc)|) == NUL
    ensures Ch(s, p) == NUL <==> PrintNodes(doc) == ""
  {
    hide At, PrintNode;
    if doc != [] {
      AtParts(s, p, PrintNode(doc[0]), PrintNodes(doc[1..]));
      if doc[0].Declaration? {
        DeclarationHead(s, p, doc[0].value);
      } else if PlainText(doc[0]) {
        assert ValidNodes(doc, 98) && ValidNode(doc[0], 98);
        assert doc[0] == Text(doc[0].value, false);
        TextFront(s, p, doc[0].value);
        if |doc| > 1 { FrontOfNext(s, p, doc, 98); }
      } else {
        MarkupHead(s, p, doc[0], 98);
      }
    }
  }

  /** Without one, the start of the first text may be skipped. */
  lemma DocumentStart(s: string, doc: seq<Node<string>>)
    requires WellFormed(doc) && At(s, 0, PrintNodes(doc)) && |PrintNodes(doc)| <= |s| && Ch(s, |PrintNodes(doc)|) == NUL
    ensures Begins(s, FromStart(false, doc)) && (BomRead(s) <==> BomShown(false, doc))
  {
    hide At, PrintNode;
    if doc != [] {
      AtParts(s, 0, PrintNode(doc[0]), PrintNodes(doc[1..]));
      if doc[0].Declaration? {
        DeclarationHead(s, 0, doc[0].value);
      } else if PlainText(doc[0]) {
        TextStart(s, doc, doc[0].value);
      } else {
        MarkupHead(s, 0, doc[0], 98);
      }
    }
  }

  lemma TextStart(s: string, doc: seq<Node<string>>, v: string)
    requires doc != [] && doc[0] == Text(v, false) && ValidNodes(doc, 98) && At(s, 0, PrintNodes(doc))
    requires |PrintNodes(doc)| <= |s| && Ch(s, |PrintNodes(doc)|) == NUL
    ensures Begins(s, FromStart(false, doc)) && (BomRead(s) <==> BomRead(v))
  {
    hide At, Escape, SkipBom;
    AtParts(s, 0, Escape(v, true), PrintNodes(doc[1..]));
    if |doc| > 1 { FrontOfNext(s, 0, doc, 98); }
    assert v[0..] == v;
    SameSkip(s, v, 0, 0);
    var k := SkipWhiteSpace(v, 0);
    SameBom(s, v, k, k);
    var p := SkipBom(v, k);
    var first := FromStart(false, doc);
    assert first[1..] == doc[1..] && first[0] == Text(v[p..], false);
    AtJoined(s, p, Escape(v[p..], true), PrintNodes(doc[1..]));
    NothingLeft(s, p, v[p..], PrintNodes(doc[1..]));
    assert SkipWhiteSpace(s, 0) == k && (HasBom(s, k) <==> HasBom(v, k));
    assert ValidNodes(first, 98) && SkipBom(s, SkipWhiteSpace(s, 0)) == p;
    assert At(s, p, PrintNodes(first)) && p + |PrintNodes(first)| == |PrintNodes(doc)|;
  }

  lemma NothingLeft(s: string, p: nat, w: string, rest: string)
    requires At(s, p, Escape(w, true)) && At(s, p + |Escape(w, true)|, rest) && NoNul(w)
    requires Ch(s, p + |Escape(w, true)|) == if rest == "" then NUL else '<'
    ensures Ch(s, p) == NUL <==> Escape(w, true) + rest == ""
  {
    TextFront(s, p, w);
  }

  lemma AtJoined(s: string, p: nat, a: string, b: string)
    requires At(s, p, a) && At(s, p + |a|, b)
    ensures At(s, p, a + b)
  {
    forall i | 0 <= i < |a + b| ensures Ch(s, p + i) == (a + b)[i] {
      if i >= |a| { assert Ch(s, p + |a| + (i - |a|)) == b[i - |a|]; }
    }
  }

  lemma DeclarationHead(s: string, p: nat, v: string)
    requires At(s, p, PrintNode(Declaration(v)))
    ensures Ch(s, p) == '<'
  {
    AtHead(s, p, "<?" + v + "?>");
  }

  lemma DocumentBegins(bom: bool, doc: seq<Node<string>>)
    requires WellFormed(doc)
    ensures var s := PrintDocument(bom, doc) + [NUL];
      Begins(s, FromStart(bom, doc)) && (BomRead(s) <==> BomShown(bom, doc))
  {
    hide PrintNodes, WellFormed, Begins, BomRead;
    var s := PrintDocument(bom, doc) + [NUL];
    if bom {
      BehindBom(s, doc);
    } else {
      AtHere(s, 0, PrintNodes(doc));
      DocumentStart(s, doc);
    }
  }

  /** The round trip of any well-formed document. Parsing its compact print, without what a parse skips at the start,
      fails only if nothing is left or if a text is last. Otherwise the tree read from the buffer is the normal form of
      what is left: newlines normalised, blank texts dropped. */
  lemma RoundTrip(bom: bool, doc: seq<Node<string>>)
    requires WellFormed(doc)
    ensures BomRead(PrintDocument(bom, doc) + [NUL]) <==> BomShown(bom, doc)
    ensures var s, rest := PrintDocument(bom, doc) + [NUL], FromStart(bom, doc);
      if PrintNodes(rest) == "" then ParseDocument(s) == Error(EmptyDocument)
      else if EndsInText(rest) then ParseDocument(s) == Error(ParsingText)
      else ParseDocument(s).Success? && ViewNodes(s, ParseDocument(s).nodes) == NormalNodes(rest)
  {
    hide ParseOne, ParseNodes, PrintNodes, ViewNodes, WellFormed, SkipBom, NormalNodes, EndsInText, BomRead, BomShown;
    hide PrintDocument, FromStart, SkipWhiteSpace, At;
    var s := PrintDocument(bom, doc) + [NUL];
    DocumentBegins(bom, doc);
    var out := TopBack(s, SkipBom(s, SkipWhiteSpace(s, 0)), FromStart(bom, doc), []);
    assert [] + out == out;
  }
}
