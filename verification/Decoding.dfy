/** What StrPair::GetStr makes of a segment of the input buffer, as functions of the segment. */
module Decoding {
  import opened XmlText
  import opened CharRef

  datatype Entity = Entity(pattern: string, value: char)

  const ENTITIES: seq<Entity> :=
    [Entity("quot", '\"'), Entity("amp", '&'), Entity("apos", '\''), Entity("lt", '<'), Entity("gt", '>')]

  /** The first entity from table entry i on whose name and semicolon follow the ampersand at p. */
  function Named(s: string, p: nat, i: nat): (r: Option<Entity>)
    requires i <= |ENTITIES|
    ensures r.Some? ==> p + |r.value.pattern| + 2 <= |s|
    decreases |ENTITIES| - i
  {
    if i == |ENTITIES| then None
    else if At(s, p + 1, ENTITIES[i].pattern) && Ch(s, p + |ENTITIES[i].pattern| + 1) == ';' then Some(ENTITIES[i])
    else Named(s, p, i + 1)
  }

  datatype Mode = Mode(entities: bool, newlines: bool)

  /** One turn of GetStr's loop at p: the bytes it writes and where it goes on reading; or Skip, an ampersand that
      starts no known entity, which both cursors step over without writing. */
  datatype Piece = Piece(next: nat, bytes: string) | Skip

  function NextPiece(seg: string, p: nat, mode: Mode): (r: Piece)
    requires p < |seg|
    ensures r.Piece? ==> p < r.next <= |seg| && |r.bytes| <= r.next - p
    ensures r.Skip? ==> seg[p] == '&' && mode.entities
  {
    if mode.newlines && seg[p] == CR then Piece(if Ch(seg, p + 1) == LF then p + 2 else p + 1, [LF])
    else if mode.newlines && seg[p] == LF then Piece(if Ch(seg, p + 1) == CR then p + 2 else p + 1, [LF])
    else if mode.entities && seg[p] == '&' then
      if Ch(seg, p + 1) == '#' then
        match CharacterRef(seg, p)
        case NoRef => Piece(p + 1, [seg[p]])
        case Ref(next, bytes) => Piece(next, bytes)
      else
        match Named(seg, p, 0)
        case Some(e) => Piece(p + |e.pattern| + 2, [e.value])
        case None => Skip
    else Piece(p + 1, [seg[p]])
  }

  /** What GetStr leaves for the part of the segment from p on, when it writes it from q on: where it skips, the
      byte that lay at q before the call stays. */
  function Flush(seg: string, p: nat, q: nat, mode: Mode): (r: string)
    requires q <= p <= |seg|
    ensures q + |r| <= |seg|
    decreases |seg| - p
  {
    if p == |seg| then ""
    else
      match NextPiece(seg, p, mode)
      case Skip => [seg[q]] + Flush(seg, p + 1, q + 1, mode)
      case Piece(next, bytes) => bytes + Flush(seg, next, q + |bytes|, mode)
  }

  lemma FlushPiece(seg: string, p: nat, q: nat, mode: Mode, next: nat, bytes: string)
    requires q <= p < |seg| && NextPiece(seg, p, mode) == Piece(next, bytes)
    ensures Flush(seg, p, q, mode) == bytes + Flush(seg, next, q + |bytes|, mode)
  {
    hide NextPiece;
  }

  /** The decoding one is meant to get, as if into a fresh buffer: newlines normalised, known entities and character
      references replaced, everything else copied. */
  function Decoded(seg: string, p: nat, mode: Mode): string
    requires p <= |seg|
    decreases |seg| - p
  {
    if p == |seg| then ""
    else
      match NextPiece(seg, p, mode)
      case Skip => "&" + Decoded(seg, p + 1, mode)
      case Piece(next, bytes) => bytes + Decoded(seg, next, mode)
  }

  /** Wherever GetStr skips, its write cursor stands on an ampersand. */
  predicate NothingStale(seg: string, p: nat, q: nat, mode: Mode)
    requires q <= p <= |seg|
    decreases |seg| - p
  {
    p < |seg| ==>
      match NextPiece(seg, p, mode)
      case Skip => seg[q] == '&' && NothingStale(seg, p + 1, q + 1, mode)
      case Piece(next, bytes) => NothingStale(seg, next, q + |bytes|, mode)
  }

  /** GetStr decodes as meant exactly on the segments where no stale byte is left. */
  lemma {:induction false} FlushIsDecoded(seg: string, p: nat, q: nat, mode: Mode)
    requires q <= p <= |seg|
    ensures Flush(seg, p, q, mode) == Decoded(seg, p, mode) <==> NothingStale(seg, p, q, mode)
    decreases |seg| - p
  {
    hide NextPiece;
    if p < |seg| {
      var piece := NextPiece(seg, p, mode);
      if piece.Skip? {
        FlushIsDecoded(seg, p + 1, q + 1, mode);
        SamePrefix([seg[q]], "&", Flush(seg, p + 1, q + 1, mode), Decoded(seg, p + 1, mode));
      } else {
        var q' := q + |piece.bytes|;
        FlushIsDecoded(seg, piece.next, q', mode);
        SamePrefix(piece.bytes, piece.bytes, Flush(seg, piece.next, q', mode), Decoded(seg, piece.next, mode));
      }
    }
  }

  predicate NoSkip(seg: string, p: nat, mode: Mode)
    requires p <= |seg|
    decreases |seg| - p
  {
    p < |seg| ==> NextPiece(seg, p, mode).Piece? && NoSkip(seg, NextPiece(seg, p, mode).next, mode)
  }

  /** So it does on every segment without an unknown entity. */
  lemma {:induction false} NoSkipIsDecoded(seg: string, p: nat, q: nat, mode: Mode)
    requires q <= p <= |seg| && NoSkip(seg, p, mode)
    ensures Flush(seg, p, q, mode) == Decoded(seg, p, mode)
    decreases |seg| - p
  {
    if p < |seg| {
      var piece := NextPiece(seg, p, mode);
      NoSkipIsDecoded(seg, piece.next, q + |piece.bytes|, mode);
    }
  }

  lemma SamePrefix(a: string, b: string, c: string, d: string)
    requires |a| == |b|
    ensures a + c == b + d <==> a == b && c == d
  {
    assert (a + c)[..|a|] == a && (b + d)[..|b|] == b;
    assert (a + c)[|a|..] == c && (b + d)[|b|..] == d;
  }

  /** An unknown entity after a known one leaves a byte of the known one's name behind. */
  lemma StaleByte()
    ensures Flush("&lt;&x", 0, 0, Mode(true, true)) == "<lx" && Decoded("&lt;&x", 0, Mode(true, true)) == "<&x"
  {
    var s, m := "&lt;&x", Mode(true, true);
    NotNamed(s, 0, 'l', 't');
    NotNamed(s, 4, 'x', NUL);
    assert Named(s, 0, 3) == Some(ENTITIES[3]) by { assert ENTITIES[3].pattern == "lt"; }
    assert NextPiece(s, 0, m) == Piece(4, "<");
    assert NextPiece(s, 4, m) == Skip;
    assert NextPiece(s, 5, m) == Piece(6, "x");
    assert Flush(s, 6, 3, m) == "" && Flush(s, 5, 2, m) == "x" && Flush(s, 4, 1, m) == "lx";
    assert Decoded(s, 6, m) == "" && Decoded(s, 5, m) == "x" && Decoded(s, 4, m) == "&x";
  }

  /** Which table entries a name beginning with c and then d can be. */
  lemma NotNamed(s: string, p: nat, c: char, d: char)
    requires Ch(s, p + 1) == c && Ch(s, p + 2) == d
    ensures c != 'q' ==> Named(s, p, 0) == Named(s, p, 1)
    ensures c != 'a' || d != 'm' ==> Named(s, p, 1) == Named(s, p, 2)
    ensures c != 'a' || d != 'p' ==> Named(s, p, 2) == Named(s, p, 3)
    ensures c != 'l' ==> Named(s, p, 3) == Named(s, p, 4)
    ensures c != 'g' ==> Named(s, p, 4) == None
  {
    forall i | 0 <= i < 5 && At(s, p + 1, ENTITIES[i].pattern)
      ensures c == ENTITIES[i].pattern[0] && d == ENTITIES[i].pattern[1]
    {
      assert Ch(s, p + 1 + 0) == ENTITIES[i].pattern[0] && Ch(s, p + 1 + 1) == ENTITIES[i].pattern[1];
    }
  }
}
