/** StrPair: a segment of the shared input buffer that is decoded where it lies, the first time it is read. */
module StrPair {
  import opened XmlText
  import opened CharRef
  import opened Decoding

  /** From offset `from` of the segment on, the buffer still holds the segment, followed by a NUL. */
  ghost predicate Intact(buf: array<char>, start: nat, seg: string, from: nat)
    reads buf
  {
    start + |seg| < buf.Length && forall i :: start + from <= i <= start + |seg| ==> buf[i] == Ch(seg, i - start)
  }

  /** strchr for the semicolon */
  method FindSemicolon(buf: array<char>, from: nat, ghost start: nat, ghost seg: string) returns (r: Option<nat>)
    requires start <= from <= start + |seg| && Intact(buf, start, seg, from - start)
    ensures match FindChar(seg, from - start, ';') case None => r == None case Some(e) => r == Some(start + e)
  {
    var q := from;
    while buf[q] != NUL
      invariant from <= q <= start + |seg|
      invariant FindChar(seg, q - start, ';') == FindChar(seg, from - start, ';')
      decreases start + |seg| - q
    {
      if buf[q] == ';' {
        return Some(q);
      }
      q := q + 1;
    }
    return None;
  }

  /** The backward loop of GetCharacterRef, from the semicolon to the marker character. */
  method SumDigits(buf: array<char>, semi: nat, marker: char, base: nat, ghost stop: nat, ghost start: nat,
                   ghost seg: string)
    returns (r: Option<nat>)
    requires start + stop < semi < start + |seg| && seg[stop] == marker && Intact(buf, start, seg, stop)
    ensures r == Accumulate(seg, semi - 1 - start, stop, marker, base, 1, 0)
  {
    var q, ucs, mult := semi - 1, 0, 1;
    while buf[q] != marker
      invariant start + stop <= q < semi
      invariant Accumulate(seg, q - start, stop, marker, base, mult, ucs)
             == Accumulate(seg, semi - 1 - start, stop, marker, base, 1, 0)
      decreases q
    {
      match DigitValue(buf[q], base)
      case None => return None;
      case Some(digit) =>
        ucs := AddU(ucs, MulU(mult, digit));
        mult := MulU(mult, base);
        q := q - 1;
    }
    return Some(ucs);
  }

  /** The part of GetCharacterRef after the base is known. */
  method GetNumeric(buf: array<char>, p: nat, marker: nat, base: nat, ghost start: nat,
                    ghost seg: string) returns (r: Ref)
    requires start <= p < marker < start + |seg| && base > 0 && Intact(buf, start, seg, p - start)
    ensures match Numeric(seg, p - start, marker - start, base)
            case NoRef => r == NoRef
            case Ref(next, bytes) => r == Ref(start + next, bytes)
  {
    if buf[marker + 1] == NUL {
      return NoRef;
    }
    var semi := FindSemicolon(buf, marker + 1, start, seg);
    match semi
    case None => return NoRef;
    case Some(at) =>
      var sum := SumDigits(buf, at, buf[marker], base, marker - start, start, seg);
      match sum
      case None => return NoRef;
      case Some(ucs) => return Ref(at + 1, Utf8(ucs));
  }

  /** XMLUtil::GetCharacterRef: NoRef, or where to go on reading and the bytes to write. */
  method GetCharacterRef(buf: array<char>, p: nat, ghost start: nat, ghost seg: string) returns (r: Ref)
    requires start <= p < start + |seg| && Intact(buf, start, seg, p - start) && buf[p + 1] == '#'
    ensures match CharacterRef(seg, p - start)
            case NoRef => r == NoRef
            case Ref(next, bytes) => r == Ref(start + next, bytes)
  {
    if buf[p + 2] == NUL {
      return Ref(p + 1, "");
    }
    if buf[p + 2] == 'x' {
      r := GetNumeric(buf, p, p + 2, 16, start, seg);
    } else {
      r := GetNumeric(buf, p, p + 1, 10, start, seg);
    }
  }

  lemma EntityMatch(seg: string, p: nat, i: nat, k: nat)
    requires i < |ENTITIES| && k <= |ENTITIES[i].pattern|
    requires forall j :: 0 <= j < k ==> Ch(seg, p + 1 + j) == ENTITIES[i].pattern[j]
    requires k < |ENTITIES[i].pattern| ==> Ch(seg, p + 1 + k) != ENTITIES[i].pattern[k]
    ensures k == |ENTITIES[i].pattern| <==> At(seg, p + 1, ENTITIES[i].pattern)
  {
  }

  lemma PatternsHaveNoNul(i: nat)
    requires i < |ENTITIES|
    ensures NoNul(ENTITIES[i].pattern)
  {
  }

  /** strncmp at the character behind the ampersand: how far the pattern matches. */
  method MatchPattern(buf: array<char>, p: nat, pattern: string, ghost start: nat, ghost seg: string) returns (k: nat)
    requires start <= p < start + |seg| && Intact(buf, start, seg, p - start) && NoNul(pattern)
    ensures k <= |pattern| && p - start + 1 + k <= |seg|
    ensures forall j :: 0 <= j < k ==> Ch(seg, p - start + 1 + j) == pattern[j]
    ensures k < |pattern| ==> buf[p + 1 + k] != pattern[k]
  {
    k := 0;
    while k < |pattern| && buf[p + 1 + k] == pattern[k]
      invariant k <= |pattern| && p - start + 1 + k <= |seg|
      invariant forall j :: 0 <= j < k ==> Ch(seg, p - start + 1 + j) == pattern[j]
    {
      k := k + 1;
    }
  }

  /** The loop over the entity table. */
  method FindEntity(buf: array<char>, p: nat, ghost start: nat, ghost seg: string) returns (r: Option<Entity>)
    requires start <= p < start + |seg| && Intact(buf, start, seg, p - start)
    ensures r == Named(seg, p - start, 0)
  {
    var i := 0;
    while i < |ENTITIES|
      invariant i <= |ENTITIES| && Named(seg, p - start, i) == Named(seg, p - start, 0)
    {
      PatternsHaveNoNul(i);
      var pattern := ENTITIES[i].pattern;
      var k := MatchPattern(buf, p, pattern, start, seg);
      EntityMatch(seg, p - start, i, k);
      if k == |pattern| && buf[p + k + 1] == ';' {
        return Some(ENTITIES[i]);
      }
      i := i + 1;
    }
    return None;
  }

  // ----- GetStr -----

  /** One turn of GetStr's loop, seen from what is written so far. */
  lemma FlushTurn(seg: string, p: nat, q: nat, mode: Mode, done: string, whole: string)
    requires q <= p < |seg| && done + Flush(seg, p, q, mode) == whole
    ensures var piece := NextPiece(seg, p, mode);
      if piece.Skip? then (done + [seg[q]]) + Flush(seg, p + 1, q + 1, mode) == whole
      else (done + piece.bytes) + Flush(seg, piece.next, q + |piece.bytes|, mode) == whole
  {
    hide NextPiece;
    match NextPiece(seg, p, mode)
    case Skip =>
      assert Flush(seg, p, q, mode) == [seg[q]] + Flush(seg, p + 1, q + 1, mode);
      hide Flush;
      Associates(done, [seg[q]], Flush(seg, p + 1, q + 1, mode));
    case Piece(next, bytes) =>
      assert Flush(seg, p, q, mode) == bytes + Flush(seg, next, q + |bytes|, mode);
      hide Flush;
      Associates(done, bytes, Flush(seg, next, q + |bytes|, mode));
  }

  lemma Associates(a: string, b: string, c: string)
    ensures (a + b) + c == a + (b + c)
  {
  }

  /** The branches of the loop body: where reading goes on, and the bytes to write; Skip to write none. */
  method ReadPiece(buf: array<char>, p: nat, mode: Mode, ghost start: nat, ghost seg: string) returns (r: Piece)
    requires start <= p < start + |seg| && Intact(buf, start, seg, p - start)
    ensures match NextPiece(seg, p - start, mode)
            case Skip => r == Skip
            case Piece(next, bytes) => r == Piece(start + next, bytes)
  {
    if mode.newlines && buf[p] == CR {
      r := Piece(if buf[p + 1] == LF then p + 2 else p + 1, [LF]);
    } else if mode.newlines && buf[p] == LF {
      r := Piece(if buf[p + 1] == CR then p + 2 else p + 1, [LF]);
    } else if mode.entities && buf[p] == '&' {
      if buf[p + 1] == '#' {
        var ref := GetCharacterRef(buf, p, start, seg);
        match ref
        case NoRef => r := Piece(p + 1, [buf[p]]);
        case Ref(adjusted, bytes) => r := Piece(adjusted, bytes);
      } else {
        var entity := FindEntity(buf, p, start, seg);
        match entity
        case Some(e) => r := Piece(p + |e.pattern| + 2, [e.value]);
        case None => r := Skip;
      }
    } else {
      r := Piece(p + 1, [buf[p]]);
    }
  }

  /** memcpy( q, bytes, len ) */
  method Copy(buf: array<char>, q: nat, bytes: string, ghost start: nat)
    requires start <= q && q + |bytes| <= buf.Length
    modifies buf
    ensures buf[start..q + |bytes|] == old(buf[start..q]) + bytes
    ensures forall i :: 0 <= i < q || q + |bytes| <= i < buf.Length ==> buf[i] == old(buf[i])
  {
    for k := 0 to |bytes|
      invariant forall i :: 0 <= i < k ==> buf[q + i] == bytes[i]
      invariant forall i :: 0 <= i < q || q + k <= i < buf.Length ==> buf[i] == old(buf[i])
    {
      buf[q + k] := bytes[k];
    }
  }

  /** What is written and what is still to be read make up the whole. */
  ghost predicate Halfway(buf: array<char>, start: nat, seg: string, p: nat, q: nat, mode: Mode, whole: string)
    reads buf
  {
    && start <= q <= p <= start + |seg| && Intact(buf, start, seg, q - start)
    && buf[start..q] + Flush(seg, p - start, q - start, mode) == whole
  }

  /** The loop body of GetStr. */
  method Turn(buf: array<char>, p: nat, q: nat, mode: Mode, ghost start: nat, ghost seg: string, ghost whole: string)
    returns (p': nat, q': nat)
    requires Halfway(buf, start, seg, p, q, mode, whole) && p < start + |seg|
    modifies buf
    ensures Halfway(buf, start, seg, p', q', mode, whole) && p < p'
    ensures forall i :: 0 <= i < start || start + |seg| < i < buf.Length ==> buf[i] == old(buf[i])
  {
    hide Flush, NextPiece;
    ghost var done := buf[start..q];
    FlushTurn(seg, p - start, q - start, mode, done, whole);
    var piece := ReadPiece(buf, p, mode, start, seg);
    match piece
    case Skip =>
      p', q' := p + 1, q + 1;
      assert buf[start..q'] == done + [seg[q - start]];
    case Piece(next, bytes) =>
      p', q' := next, q + |bytes|;
      Copy(buf, q, bytes, start);
  }

  /** The decoding loop of GetStr, after `*_end = 0`. The write cursor never passes the read cursor, neither leaves
      the segment, and what lies between start and the final NUL is the segment decoded as Flush says. */
  method DecodeInPlace(buf: array<char>, start: nat, end: nat, mode: Mode) returns (q: nat)
    requires start <= end < buf.Length && buf[end] == NUL
    modifies buf
    ensures start <= q <= end && buf[q] == NUL && buf[start..q] == Flush(old(buf[start..end]), 0, 0, mode)
    ensures forall i :: 0 <= i < start || end < i < buf.Length ==> buf[i] == old(buf[i])
  {
    hide NextPiece;
    ghost var seg := buf[start..end];
    ghost var whole := Flush(seg, 0, 0, mode);
    assert buf[start..start] + whole == whole;
    var p := start;
    q := start;
    while p < end
      invariant Halfway(buf, start, seg, p, q, mode, whole)
      invariant forall i :: 0 <= i < start || end < i < buf.Length ==> buf[i] == old(buf[i])
      decreases end - p
    {
      p, q := Turn(buf, p, q, mode, start, seg, whole);
    }
    ghost var text := buf[start..q];
    assert text + "" == text == whole;
    buf[q] := NUL;
    assert buf[start..q] == text;
  }

  // ----- segments that are read in any order -----

  lemma {:induction false} CStrOfText(s: string, start: nat, t: string, k: nat)
    requires k <= |t| && start + |t| < |s| && s[start + |t|] == NUL
    requires forall i :: 0 <= i < |t| ==> s[start + i] == t[i]
    ensures CStr(s, start + k) == CStr(t, k)
    decreases |t| - k
  {
    if k < |t| { CStrOfText(s, start, t, k + 1); }
  }

  lemma {:induction false} PlainFlush(seg: string, p: nat, q: nat)
    requires q <= p <= |seg|
    ensures Flush(seg, p, q, Mode(false, false)) == seg[p..]
    decreases |seg| - p
  {
    if p < |seg| {
      PlainFlush(seg, p + 1, q + 1);
      assert seg[p..] == [seg[p]] + seg[p + 1..];
    }
  }

  /** The buffer still holds the segment, or already its decoding as a C string. */
  ghost predicate Holds(s: string, start: nat, end: nat, flush: bool, raw: string, text: string)
    requires |text| <= |raw|
  {
    && start + |raw| == end < |s|
    && if flush then s[start..end] == raw
       else s[start..start + |text|] == text && s[start + |text|] == NUL
  }

  class StrPair {
    var start: nat
    var end: nat
    var needsFlush: bool
    var mode: Mode           // the other flags
    ghost var raw: string    // what lay between start and end when Set was called
    ghost var how: Mode      // the flags Set was called with

    constructor ()
      ensures start == end == 0 && !needsFlush && raw == ""
    {
      start, end, needsFlush, mode, raw, how := 0, 0, false, Mode(false, false), "", Mode(false, false);
    }

    /** The decoding of this segment by itself, as Set found it. */
    ghost function Text(): (t: string)
      reads this
      ensures |t| <= |raw|
    {
      Flush(raw, 0, 0, how)
    }

    ghost predicate Reads(buf: array<char>)
      reads this, buf
    {
      && Holds(buf[..], start, end, needsFlush, raw, Text())
      && (needsFlush ==> mode == how)
    }

    method Set(buf: array<char>, start: nat, end: nat, mode: Mode)
      requires start <= end < buf.Length
      modifies this
      ensures Reads(buf) && this.start == start && this.end == end && needsFlush && how == mode
      ensures raw == buf[start..end]
    {
      this.start, this.end, this.mode, needsFlush := start, end, mode, true;
      raw, how := buf[start..end], mode;
    }

    /** Returns the position of the decoded C string. Only the segment and its terminator are written. */
    method GetStr(buf: array<char>) returns (r: nat)
      requires Reads(buf)
      modifies this`needsFlush, this`mode, buf
      ensures Reads(buf) && !needsFlush && r == start
      ensures forall i :: 0 <= i < start || end < i < buf.Length ==> buf[i] == old(buf[i])
    {
      if needsFlush {
        buf[end] := NUL;
        assert buf[start..end] == raw;
        needsFlush := false;
        if mode.entities || mode.newlines {
          var q := DecodeInPlace(buf, start, end, mode);
        } else {
          PlainFlush(raw, 0, 0);
        }
        mode := Mode(false, false);
      }
      r := start;
    }
  }

  /** No two segments share a byte, terminators included. */
  ghost predicate Apart(pairs: seq<StrPair>)
    reads pairs
  {
    forall i, j :: 0 <= i < j < |pairs| ==>
      pairs[i] != pairs[j] && (pairs[i].end < pairs[j].start || pairs[j].end < pairs[i].start)
  }

  method ReadCStr(buf: array<char>, p: nat) returns (t: string)
    requires p <= buf.Length
    ensures t == CStr(buf[..], p)
  {
    t := "";
    var q := p;
    while q < buf.Length && buf[q] != NUL
      invariant p <= q <= buf.Length
      invariant t + CStr(buf[..], q) == CStr(buf[..], p)
    {
      assert t + [buf[q]] + CStr(buf[..], q + 1) == t + CStr(buf[..], q);
      t := t + [buf[q]];
      q := q + 1;
    }
    assert t + "" == t;
  }

  /** Reading one of several segments leaves the others readable. */
  lemma OtherStillHolds(s: string, s': string, start: nat, end: nat, flush: bool, raw: string, text: string, lo: nat,
                        hi: nat)
    requires |s| == |s'| && forall i :: 0 <= i < |s| && !(lo <= i <= hi) ==> s'[i] == s[i]
    requires end < lo || hi < start
    requires |text| <= |raw| && Holds(s, start, end, flush, raw, text)
    ensures Holds(s', start, end, flush, raw, text)
  {
    assert s'[start..end] == s[start..end];
    assert s'[start..start + |text|] == s[start..start + |text|];
  }

  /** Lazy decoding does not depend on the order of the reads: whichever of the segments are read, in whatever order
      and however often, each gives the text it has when decoded by itself. */
  method ReadAll(buf: array<char>, pairs: seq<StrPair>, order: seq<nat>) returns (texts: seq<string>)
    requires Apart(pairs) && forall i :: 0 <= i < |pairs| ==> pairs[i].Reads(buf)
    requires forall k :: 0 <= k < |order| ==> order[k] < |pairs|
    modifies pairs, buf
    ensures |texts| == |order|
    ensures forall k :: 0 <= k < |order| ==> texts[k] == UpToNul(old(pairs[order[k]].Text()))
  {
    texts := [];
    for k := 0 to |order|
      invariant |texts| == k && forall i :: 0 <= i < |pairs| ==> pairs[i].Reads(buf)
      invariant forall i :: 0 <= i < |pairs| ==>
        pairs[i].start == old(pairs[i].start) && pairs[i].end == old(pairs[i].end) &&
          pairs[i].Text() == old(pairs[i].Text())
      invariant forall j :: 0 <= j < k ==> texts[j] == UpToNul(old(pairs[order[j]].Text()))
    {
      var t := ReadOne(buf, pairs, pairs[order[k]]);
      texts := texts + [t];
    }
  }

  lemma ReadsAsText(buf: array<char>, p: StrPair)
    requires p.Reads(buf) && !p.needsFlush
    ensures CStr(buf[..], p.start) == UpToNul(p.Text())
  {
    var text := p.Text();
    forall k | 0 <= k < |text| ensures buf[..][p.start + k] == text[k] {
      assert buf[..][p.start + k] == buf[..][p.start..p.start + |text|][k];
    }
    CStrOfText(buf[..], p.start, text, 0);
  }

  method ReadOne(buf: array<char>, ghost pairs: seq<StrPair>, pair: StrPair) returns (t: string)
    requires pair in pairs && Apart(pairs) && forall j :: 0 <= j < |pairs| ==> pairs[j].Reads(buf)
    modifies pair`needsFlush, pair`mode, buf
    ensures forall j :: 0 <= j < |pairs| ==> pairs[j].Reads(buf)
    ensures t == UpToNul(pair.Text())
  {
    ghost var before := buf[..];
    var at := pair.GetStr(buf);
    ghost var after := buf[..];
    forall j | 0 <= j < |pairs| && pairs[j] != pair ensures pairs[j].Reads(buf) {
      ghost var o := pairs[j];
      OtherStillHolds(before, after, o.start, o.end, o.needsFlush, o.raw, o.Text(), pair.start, pair.end);
    }
    t := ReadCStr(buf, at);
    ReadsAsText(buf, pair);
  }
}
