/** The key recommender on text: which keys it takes for three-byte letters, and what it counts for them. */
module Utf8Keys {
  import opened XmlText
  import opened CharRef
  import opened Letters
  import opened Tally
  import opened LetterIndex

  // ----- the width of a letter -----

  /** CharLen tells one byte and three bytes apart, takes the first byte of four for three, and knows no two. */
  lemma WidthOf(v: nat)
    ensures v < 0x80 ==> CharLen(Utf8(v)) == 1 && |Utf8(v)| == 1
    ensures 0x80 <= v < 0x800 ==> CharLen(Utf8(v)) == -1 && |Utf8(v)| == 2
    ensures 0x800 <= v < 0x200000 ==> CharLen(Utf8(v)) == 3 && |Utf8(v)| == if v < 0x10000 then 3 else 4
  {
    if v < 0x200000 { assert (Utf8(v)[0] as int) % 0x100 == Encode(v)[0]; }
  }

  /** Different values have different bytes. */
  lemma SameBytes(u: nat, v: nat)
    requires u < 0x200000 && v < 0x200000 && Utf8(u) == Utf8(v)
    ensures u == v
  {
    var a, b := Encode(u), Encode(v);
    forall i | 0 <= i < |a| ensures a[i] == b[i] { assert Utf8(u)[i] as int == a[i] && Utf8(v)[i] as int == b[i]; }
    assert a == b;
    Utf8RoundTrip(u);
    Utf8RoundTrip(v);
  }

  // ----- texts -----

  function Text(vs: seq<nat>): string { if vs == [] then "" else Utf8(vs[0]) + Text(vs[1..]) }

  /** Characters of three bytes each, as Chinese ones are; or of one byte each. */
  predicate Wide(vs: seq<nat>) { forall v :: v in vs ==> 0x800 <= v < 0x10000 }

  predicate Ascii(vs: seq<nat>) { forall v :: v in vs ==> v < 0x80 }

  predicate OfWidth(vs: seq<nat>, w: nat) { if w == 1 then Ascii(vs) else w == 3 && Wide(vs) }

  /** The characters of a text, each as its bytes. */
  function Bytes(vs: seq<nat>): set<string> { set v | v in vs :: Utf8(v) }

  /** Cutting a text of one width into pieces gives its characters. */
  lemma {:induction false} PiecesOfText(vs: seq<nat>, w: nat)
    requires (w == 1 || w == 3) && OfWidth(vs, w)
    ensures Pieces(Text(vs), w) == Bytes(vs)
  {
    hide Utf8;
    if vs != [] {
      var v, rest := vs[0], Text(vs[1..]);
      assert vs == [v] + vs[1..] && v in vs && forall u :: u in vs[1..] ==> u in vs;
      WidthOf(v);
      PiecesOfText(vs[1..], w);
      assert Bytes(vs) == {Utf8(v)} + Bytes(vs[1..]);
      assert Text(vs)[..w] == Utf8(v) && Text(vs)[w..] == rest;
      FirstPiece(Utf8(v), rest, w);
    }
  }

  lemma FirstPiece(letter: string, rest: string, w: nat)
    requires |letter| == w > 0
    ensures Pieces(letter + rest, w) == {letter} + Pieces(rest, w)
  {
    assert (letter + rest)[..w] == letter && (letter + rest)[w..] == rest;
    if rest == "" { assert letter + rest == letter; }
  }

  /** Such a text, if there is any, has the width of its letters, and so have all its pieces. */
  lemma TextIsUniform(vs: seq<nat>, w: nat)
    requires (w == 1 || w == 3) && OfWidth(vs, w) && vs != []
    ensures CharLen(Text(vs)) == w && Uniform(Text(vs))
  {
    assert vs[0] in vs;
    WidthOf(vs[0]);
    SameFirstByte(Utf8(vs[0]), Text(vs[1..]));
    hide Utf8, CharLen, Pieces;
    PiecesOfText(vs, w);
    forall ch | ch in Bytes(vs) ensures CharLen(ch) == w {
      var v :| v in vs && Utf8(v) == ch;
      WidthOf(v);
    }
  }

  lemma SameFirstByte(a: string, b: string)
    requires a != ""
    ensures CharLen(a + b) == CharLen(a)
  {
  }

  lemma SharedPieces(vs: seq<nat>, w: nat, pieces: set<string>)
    requires (w == 1 || w == 3) && OfWidth(vs, w)
    ensures |Bytes(vs) * pieces| == |(set v | v in vs && Utf8(v) in pieces)|
    ensures Bytes(vs) * pieces != {} <==> exists v :: v in vs && Utf8(v) in pieces
  {
    hide Utf8;
    var shared := set v | v in vs && Utf8(v) in pieces;
    assert Bytes(vs) * pieces == set v | v in shared :: Utf8(v);
    SameSize(shared);
    if v :| v in vs && Utf8(v) in pieces { assert Utf8(v) in Bytes(vs) * pieces; }
  }

  lemma {:induction false} SameSize(vs: set<nat>)
    requires forall v :: v in vs ==> v < 0x200000
    ensures |(set v | v in vs :: Utf8(v))| == |vs|
  {
    hide Utf8;
    if vs != {} {
      var x :| x in vs;
      var rest := vs - {x};
      SameSize(rest);
      var image := set v | v in rest :: Utf8(v);
      assert (set v | v in vs :: Utf8(v)) == image + {Utf8(x)};
      forall v | v in rest ensures Utf8(v) != Utf8(x) {
        if Utf8(v) == Utf8(x) { SameBytes(v, x); }
      }
      assert Utf8(x) !in image;
    }
  }

  /** Building both indexes and asking for a text: a line comes up if and only if its word has a character of the key
      among its pieces, and its count is how many different ones. */
  method AskText(chinese: seq<(string, int)>, english: seq<(string, int)>, key: seq<nat>, w: nat)
    returns (freq: map<int, nat>)
    requires (w == 1 || w == 3) && OfWidth(key, w) && key != []
    ensures var dict := if w == 3 then chinese else english;
      forall n ::
        && (n in freq <==> 0 <= n < |dict| && exists v :: v in key && Utf8(v) in Pieces(dict[n].0, w))
        && (n in freq ==> freq[n] == |(set v | v in key && Utf8(v) in Pieces(dict[n].0, w))|)
  {
    hide Utf8, CharLen, Pieces, Text, Bytes;
    TextIsUniform(key, w);
    PiecesOfText(key, w);
    freq := AskBuilt(chinese, english, Text(key));
    ghost var dict := if w == 3 then chinese else english;
    forall n | 0 <= n < |dict|
      ensures Bytes(key) * Pieces(dict[n].0, w) != {} <==> exists v :: v in key && Utf8(v) in Pieces(dict[n].0, w)
      ensures |Bytes(key) * Pieces(dict[n].0, w)| == |(set v | v in key && Utf8(v) in Pieces(dict[n].0, w))|
    {
      SharedPieces(key, w, Pieces(dict[n].0, w));
    }
  }

  /** For a word of the same width those are the characters that key and word share. */
  lemma SharedCharacters(key: seq<nat>, word: seq<nat>, w: nat)
    requires (w == 1 || w == 3) && OfWidth(key, w) && OfWidth(word, w)
    ensures (set v | v in key && Utf8(v) in Pieces(Text(word), w)) == set v | v in key && v in word
  {
    hide Utf8, Text, Pieces;
    PiecesOfText(word, w);
    forall v | v in key ensures Utf8(v) in Bytes(word) <==> v in word {
      if Utf8(v) in Bytes(word) {
        var u :| u in word && Utf8(u) == Utf8(v);
        SameBytes(u, v);
      }
    }
  }
}
