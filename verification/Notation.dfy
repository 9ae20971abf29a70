/** Character references read back what was written in decimal or hexadecimal notation, by digits looked up in a row. */
module Notation {
  import opened XmlText
  import opened CharRef
  import opened Decoding

  const DECIMAL: string := "0123456789"
  const UPPER: string := "0123456789ABCDEF"
  const LOWER: string := "0123456789abcdef"

  /** c is the digit d, upper or lower case. */
  predicate Shows(c: char, d: nat, base: nat) {
    if base == 10 then d < 10 && c == DECIMAL[d] else d < 16 && (c == UPPER[d] || c == LOWER[d])
  }

  lemma TheDigits(d: nat)
    requires d < 16
    ensures UPPER[d] == if d < 10 then '0' + d as char else 'A' + (d - 10) as char
    ensures LOWER[d] == if d < 10 then '0' + d as char else 'a' + (d - 10) as char
    ensures d < 10 ==> DECIMAL[d] == '0' + d as char
  {
    assert d == 0 || d == 1 || d == 2 || d == 3 || d == 4 || d == 5 || d == 6 || d == 7 || d == 8 || d == 9 || d == 10
        || d == 11 || d == 12 || d == 13 || d == 14 || d == 15;
  }

  /** DigitValue is the place of the character in those rows. */
  lemma DigitIsShown(c: char, d: nat, base: nat)
    requires base == 10 || base == 16
    ensures DigitValue(c, base) == Some(d) <==> Shows(c, d, base)
  {
    if d < 16 { TheDigits(d); }
  }

  /** The text writes v: its last digit is the remainder, what is before it writes the quotient. Zeros may lead, and
      upper and lower case may be mixed. */
  predicate Writes(t: string, v: nat, base: nat)
    requires base > 0
  {
    if t == "" then v == 0 else Shows(t[|t| - 1], v % base, base) && Writes(t[..|t| - 1], v / base, base)
  }

  /** What is written is what the digits stand for, and nothing else. */
  lemma {:induction false} WrittenIsPositional(s: string, lo: nat, hi: nat, v: nat, base: nat)
    requires lo <= hi <= |s| && (base == 10 || base == 16)
    ensures Writes(s[lo..hi], v, base) <==> IsDigits(s, lo, hi, base) && Positional(s, lo, hi, base) == v
    decreases hi
  {
    hide Shows, DigitValue, IsDigits;
    if lo < hi {
      var c := s[hi - 1];
      WritesOneMore(s, lo, hi, v, base);
      DigitsOneMore(s, lo, hi, base);
      assert Positional(s, lo, hi, base) == Positional(s, lo, hi - 1, base) * base + Digit(c, base);
      hide Writes, Positional;
      WrittenIsPositional(s, lo, hi - 1, v / base, base);
      DigitIsShown(c, v % base, base);
      if DigitValue(c, base).Some? {
        DigitBelow(c, base);
        LastDigit(Positional(s, lo, hi - 1, base), Digit(c, base), v, base);
      }
    } else {
      assert IsDigits(s, lo, hi, base) by { NoDigits(s, lo, base); }
    }
  }

  lemma NoDigits(s: string, lo: nat, base: nat)
    requires lo <= |s|
    ensures IsDigits(s, lo, lo, base)
  {
  }

  lemma WritesOneMore(s: string, lo: nat, hi: nat, v: nat, base: nat)
    requires lo < hi <= |s| && base > 0
    ensures Writes(s[lo..hi], v, base) <==> Shows(s[hi - 1], v % base, base) && Writes(s[lo..hi - 1], v / base, base)
  {
    var t := s[lo..hi];
    assert t[|t| - 1] == s[hi - 1] && t[..|t| - 1] == s[lo..hi - 1];
  }

  lemma DigitsOneMore(s: string, lo: nat, hi: nat, base: nat)
    requires lo < hi <= |s|
    ensures IsDigits(s, lo, hi, base) <==> IsDigits(s, lo, hi - 1, base) && DigitValue(s[hi - 1], base).Some?
  {
  }

  lemma DigitBelow(c: char, base: nat)
    requires (base == 10 || base == 16) && DigitValue(c, base).Some?
    ensures Digit(c, base) < base
  {
  }

  lemma LastDigit(high: nat, d: nat, v: nat, base: nat)
    requires (base == 10 || base == 16) && d < base
    ensures high * base + d == v <==> high == v / base && d == v % base
  {
  }

  /** A number below 2^32 has no digit that overflows. */
  lemma {:induction false} SmallFits(s: string, lo: nat, hi: nat, base: nat, place: nat)
    requires lo <= hi <= |s| && base > 0 && place * Positional(s, lo, hi, base) < UINT
    ensures PlacesFit(s, lo, hi, base, place)
    decreases hi
  {
    if lo < hi {
      var high, d := Positional(s, lo, hi - 1, base), Digit(s[hi - 1], base);
      SmallPlaces(place, base, high, d);
      hide Positional;
      SmallFits(s, lo, hi - 1, base, place * base);
    }
  }

  lemma SmallPlaces(place: nat, base: nat, high: nat, d: nat)
    requires place * (high * base + d) < UINT
    ensures place * d < UINT && place * base * high < UINT
  {
    Distribute(place, base, high, d);
    NoNegative(place, d);
    NoNegative(place * base, high);
  }

  lemma NoNegative(a: nat, b: nat)
    ensures a * b >= 0
  {
  }

  /** The reference to v, in any notation of its base, is read as v. */
  lemma WrittenIsRead(s: string, p: nat, marker: nat, semi: nat, v: nat, base: nat)
    requires p < marker < semi < |s| && (base == 10 || base == 16) && DigitValue(s[marker], base).None?
    requires s[semi] == ';' && Writes(s[marker + 1..semi], v, base) && v < UINT
    ensures Numeric(s, p, marker, base) == Ref(semi + 1, Utf8(v))
  {
    hide Writes, Positional, PlacesFit, IsDigits, DigitValue, Utf8, Numeric, Ucs;
    WrittenIsPositional(s, marker + 1, semi, v, base);
    SmallFits(s, marker + 1, semi, base, 1);
    UcsIsPositional(s, marker + 1, semi, base);
    ReferenceDenotes(s, p, marker, base, semi);
  }

  /** "&#x", digits and a semicolon. */
  lemma HexIsRead(s: string, p: nat, t: string, v: nat)
    requires t != "" && Writes(t, v, 16) && v < UINT && At(s, p, "&#x" + t + ";") && p + |t| + 4 <= |s|
    ensures Ch(s, p + 1) == '#' && CharacterRef(s, p) == Ref(p + |t| + 4, Utf8(v))
  {
    RefLayout(s, p, "&#x", t);
    assert Ch(s, p + 1) == "&#x"[1] && Ch(s, p + 2) == "&#x"[2];
    hide Writes, Utf8, Numeric, At;
    WrittenIsRead(s, p, p + 2, p + |t| + 3, v, 16);
  }

  /** "&#", digits and a semicolon. */
  lemma DecimalIsRead(s: string, p: nat, t: string, v: nat)
    requires t != "" && Writes(t, v, 10) && v < UINT && At(s, p, "&#" + t + ";") && p + |t| + 3 <= |s|
    ensures Ch(s, p + 1) == '#' && CharacterRef(s, p) == Ref(p + |t| + 3, Utf8(v))
  {
    RefLayout(s, p, "&#", t);
    assert Ch(s, p + 1) == "&#"[1];
    FirstDigit(t, v);
    assert Ch(s, p + 2) == t[0];
    hide Writes, Utf8, Numeric, At;
    WrittenIsRead(s, p, p + 1, p + |t| + 2, v, 10);
  }

  lemma RefLayout(s: string, p: nat, mark: string, t: string)
    requires At(s, p, mark + t + ";") && p + |mark| + |t| + 1 <= |s|
    ensures At(s, p, mark) && s[p + |mark|..p + |mark| + |t|] == t && s[p + |mark| + |t|] == ';'
    ensures t != "" ==> Ch(s, p + |mark|) == t[0]
  {
    AtParts(s, p, mark + t, ";");
    AtParts(s, p, mark, t);
    AtHead(s, p + |mark + t|, ";");
    forall i | 0 <= i < |t| ensures s[p + |mark| + i] == t[i] { assert Ch(s, p + |mark| + i) == t[i]; }
  }

  /** A decimal number does not begin like a hexadecimal one. */
  lemma {:induction false} FirstDigit(t: string, v: nat)
    requires t != "" && Writes(t, v, 10)
    ensures t[0] != 'x' && t[0] != NUL
    decreases |t|
  {
    if |t| == 1 {
      TheDigits(v % 10);
    } else {
      FirstDigit(t[..|t| - 1], v / 10);
    }
  }

  // ----- writers -----

  /** v in the base that the alphabet has digits for. */
  function Digits(v: nat, alphabet: string): (t: string)
    requires |alphabet| == 10 || |alphabet| == 16
    ensures t != ""
  {
    QuotientIsLess(v, |alphabet|);
    if v < |alphabet| then [alphabet[v]] else Digits(v / |alphabet|, alphabet) + [alphabet[v % |alphabet|]]
  }

  lemma QuotientIsLess(v: nat, base: nat)
    requires base == 10 || base == 16
    ensures v >= base ==> v / base < v
  {
  }

  lemma {:induction false} DigitsWrite(v: nat, alphabet: string)
    requires alphabet == DECIMAL || alphabet == UPPER || alphabet == LOWER
    ensures Writes(Digits(v, alphabet), v, |alphabet|)
  {
    hide Shows, Writes, Digits;
    var base := |alphabet|;
    DigitShows(v % base, alphabet);
    DigitsStep(v, alphabet);
    if v < base {
      NothingWritten(base);
      SmallQuotient(v, base);
      OneMoreDigit("", alphabet[v % base], v, base);
    } else {
      QuotientIsLess(v, base);
      DigitsWrite(v / base, alphabet);
      OneMoreDigit(Digits(v / base, alphabet), alphabet[v % base], v, base);
    }
  }

  lemma SmallQuotient(v: nat, base: nat)
    requires v < base
    ensures v / base == 0 && v % base == v
  {
  }

  lemma DigitsStep(v: nat, alphabet: string)
    requires |alphabet| == 10 || |alphabet| == 16
    ensures Digits(v, alphabet) ==
      (if v < |alphabet| then "" else Digits(v / |alphabet|, alphabet)) + [alphabet[v % |alphabet|]]
  {
  }

  lemma DigitShows(d: nat, alphabet: string)
    requires (alphabet == DECIMAL || alphabet == UPPER || alphabet == LOWER) && d < |alphabet|
    ensures Shows(alphabet[d], d, |alphabet|)
  {
  }

  lemma NothingWritten(base: nat)
    requires base > 0
    ensures Writes("", 0, base)
  {
  }

  lemma OneMoreDigit(t: string, c: char, v: nat, base: nat)
    requires base > 0 && Shows(c, v % base, base) && Writes(t, v / base, base)
    ensures Writes(t + [c], v, base)
  {
    hide Shows;
    var more := t + [c];
    assert more[|more| - 1] == c && more[..|more| - 1] == t;
  }

  /** GetStr of a reference written with these digits is the UTF-8 bytes of the value. */
  lemma ReferenceRoundTrip(v: nat)
    requires v < UINT
    ensures var s := "&#x" + Digits(v, UPPER) + ";"; Flush(s, 0, 0, Mode(true, true)) == Utf8(v)
    ensures var s := "&#x" + Digits(v, LOWER) + ";"; Flush(s, 0, 0, Mode(true, true)) == Utf8(v)
    ensures var s := "&#" + Digits(v, DECIMAL) + ";"; Flush(s, 0, 0, Mode(true, true)) == Utf8(v)
  {
    hide Digits, Flush;
    HexComesBack(v, UPPER);
    HexComesBack(v, LOWER);
    DecimalComesBack(v);
  }

  lemma HexComesBack(v: nat, alphabet: string)
    requires v < UINT && (alphabet == UPPER || alphabet == LOWER)
    ensures var s := "&#x" + Digits(v, alphabet) + ";"; Flush(s, 0, 0, Mode(true, true)) == Utf8(v)
  {
    DigitsWrite(v, alphabet);
    hide Digits, Writes, Utf8, Flush, CharacterRef;
    var s := "&#x" + Digits(v, alphabet) + ";";
    HexIsRead(s, 0, Digits(v, alphabet), v);
    WholeReference(s, Utf8(v));
  }

  lemma DecimalComesBack(v: nat)
    requires v < UINT
    ensures var s := "&#" + Digits(v, DECIMAL) + ";"; Flush(s, 0, 0, Mode(true, true)) == Utf8(v)
  {
    DigitsWrite(v, DECIMAL);
    hide Digits, Writes, Utf8, Flush, CharacterRef;
    var s := "&#" + Digits(v, DECIMAL) + ";";
    DecimalIsRead(s, 0, Digits(v, DECIMAL), v);
    WholeReference(s, Utf8(v));
  }

  lemma WholeReference(s: string, bytes: string)
    requires |s| > 1 && s[0] == '&' && s[1] == '#' && CharacterRef(s, 0) == Ref(|s|, bytes)
    ensures Flush(s, 0, 0, Mode(true, true)) == bytes
  {
    hide CharacterRef;
    FlushPiece(s, 0, 0, Mode(true, true), |s|, bytes);
  }

  // ----- which references are well formed -----

  /** The loop of GetCharacterRef stops at the first marker character it meets on its way back, whichever that is. */
  lemma {:induction false} StopsEarlier(s: string, q: nat, stop: nat, k: nat, base: nat, mult: nat, ucs: nat)
    requires stop <= k <= q < |s| && s[k] == s[stop]
    ensures Accumulate(s, q, stop, s[stop], base, mult, ucs) == Accumulate(s, q, k, s[k], base, mult, ucs)
    decreases q
  {
    hide DigitValue;
    if s[q] != s[stop] && DigitValue(s[q], base).Some? {
      StopsEarlier(s, q - 1, stop, k, base, MulU(mult, base), AddU(ucs, MulU(mult, DigitValue(s[q], base).value)));
    }
  }

  /** If it finds no other character, there are only digits between the marker character and the semicolon. */
  lemma {:induction false} DigitsBehind(s: string, q: nat, stop: nat, base: nat, mult: nat, ucs: nat) returns (k: nat)
    requires stop <= q < |s| && Accumulate(s, q, stop, s[stop], base, mult, ucs).Some?
    ensures stop <= k <= q && s[k] == s[stop] && IsDigits(s, k + 1, q + 1, base)
    decreases q
  {
    hide DigitValue;
    if s[q] == s[stop] {
      k := q;
    } else {
      var d := DigitValue(s[q], base).value;
      k := DigitsBehind(s, q - 1, stop, base, MulU(mult, base), AddU(ucs, MulU(mult, d)));
      DigitsOneMore(s, k + 1, q + 1, base);
    }
  }

  lemma {:induction false} FirstSemicolon(s: string, p: nat, semi: nat)
    requires p <= semi < |s| && s[semi] == ';' && forall i :: p <= i < semi ==> s[i] != ';' && s[i] != NUL
    ensures FindChar(s, p, ';') == Some(semi)
    decreases semi - p
  {
    if p < semi { FirstSemicolon(s, p + 1, semi); }
  }

  predicate HexAt(s: string, p: nat) { Ch(s, p + 2) == 'x' }

  function MarkerAt(s: string, p: nat): nat { if HexAt(s, p) then p + 2 else p + 1 }

  function BaseAt(s: string, p: nat): nat { if HexAt(s, p) then 16 else 10 }

  /** From some marker character up to the semicolon there are the digits of v. */
  predicate WritesBehind(s: string, p: nat, k: nat, semi: nat, v: nat) {
    MarkerAt(s, p) <= k < semi <= |s| && s[k] == (if HexAt(s, p) then 'x' else '#') &&
    Writes(s[k + 1..semi], v, BaseAt(s, p))
  }

  lemma AsNumeric(s: string, p: nat)
    requires Ch(s, p + 1) == '#' && Ch(s, p + 2) != NUL
    ensures CharacterRef(s, p) == Numeric(s, p, MarkerAt(s, p), BaseAt(s, p))
    ensures s[MarkerAt(s, p)] == if HexAt(s, p) then 'x' else '#'
    ensures DigitValue(s[MarkerAt(s, p)], BaseAt(s, p)).None?
  {
    hide Numeric;
  }

  lemma NumericOf(s: string, p: nat, marker: nat, base: nat, semi: nat)
    requires base > 0 && p < marker < semi < |s| && Ch(s, marker + 1) != NUL
    requires FindChar(s, marker + 1, ';') == Some(semi)
    ensures var ucs := Accumulate(s, semi - 1, marker, s[marker], base, 1, 0);
      Numeric(s, p, marker, base) == if ucs.None? then NoRef else Ref(semi + 1, Utf8(ucs.value))
  {
  }

  /** A reference is well formed exactly when digits stand between a marker character, the first or a later one, and the
      first semicolon. It denotes the number that those digits write, whatever is in front of that character. */
  lemma ReferenceIff(s: string, p: nat, semi: nat)
    requires Ch(s, p + 1) == '#' && Ch(s, p + 2) != NUL && MarkerAt(s, p) < semi < |s| && s[semi] == ';'
    requires forall i :: MarkerAt(s, p) < i < semi ==> s[i] != ';' && s[i] != NUL
    ensures CharacterRef(s, p).Ref? <==> exists k: nat, v: nat :: WritesBehind(s, p, k, semi, v)
    ensures forall k: nat, v: nat :: WritesBehind(s, p, k, semi, v) && v < UINT ==>
      CharacterRef(s, p) == Ref(semi + 1, Utf8(v))
  {
    hide Accumulate, Writes, Utf8, Numeric, CharacterRef, DigitValue, IsDigits, Positional;
    var marker, base := MarkerAt(s, p), BaseAt(s, p);
    AsNumeric(s, p);
    FirstSemicolon(s, marker + 1, semi);
    NumericOf(s, p, marker, base, semi);
    if CharacterRef(s, p).Ref? {
      var k := DigitsBehind(s, semi - 1, marker, base, 1, 0);
      WrittenIsPositional(s, k + 1, semi, Positional(s, k + 1, semi, base), base);
      assert WritesBehind(s, p, k, semi, Positional(s, k + 1, semi, base));
    }
    forall k: nat, v: nat | WritesBehind(s, p, k, semi, v)
      ensures CharacterRef(s, p).Ref? && (v < UINT ==> CharacterRef(s, p) == Ref(semi + 1, Utf8(v)))
    {
      BehindIsRead(s, p, k, semi, v);
    }
  }

  lemma BehindIsRead(s: string, p: nat, k: nat, semi: nat, v: nat)
    requires Ch(s, p + 1) == '#' && Ch(s, p + 2) != NUL && MarkerAt(s, p) < semi < |s| && s[semi] == ';'
    requires FindChar(s, MarkerAt(s, p) + 1, ';') == Some(semi) && Ch(s, MarkerAt(s, p) + 1) != NUL
    requires WritesBehind(s, p, k, semi, v)
    ensures CharacterRef(s, p).Ref? && (v < UINT ==> CharacterRef(s, p) == Ref(semi + 1, Utf8(v)))
  {
    hide Accumulate, Writes, Utf8, Numeric, CharacterRef, DigitValue, IsDigits, Positional, Ucs, PlacesFit;
    var marker, base := MarkerAt(s, p), BaseAt(s, p);
    AsNumeric(s, p);
    NumericOf(s, p, marker, base, semi);
    WrittenIsPositional(s, k + 1, semi, v, base);
    DigitsSum(s, k, base, semi);
    StopsEarlier(s, semi - 1, marker, k, base, 1, 0);
    if v < UINT {
      SmallFits(s, k + 1, semi, base, 1);
      UcsIsPositional(s, k + 1, semi, base);
    }
  }

  /** No semicolon, no reference. */
  lemma NoSemicolon(s: string, p: nat)
    requires Ch(s, p + 1) == '#' && Ch(s, p + 2) != NUL && p < |s|
    requires FindChar(s, MarkerAt(s, p) + 1, ';').None?
    ensures CharacterRef(s, p) == NoRef
  {
    AsNumeric(s, p);
    hide CharacterRef;
  }

  /** What stands in front of a second marker character is ignored: "&#1#65;" is read as the letter A. */
  lemma SecondMarker()
    ensures CharacterRef("&#1#65;", 0) == Ref(7, "A")
  {
    var s := "&#1#65;";
    assert s[4..6] == "65" && "65"[..1] == "6" && "6"[..0] == "";
    assert "65"[1] == '5' && "6"[0] == '6';
    assert WritesBehind(s, 0, 3, 6, 65) by {
      TheDigits(5);
      TheDigits(6);
      assert Writes("", 0, 10) && Writes("6", 6, 10) && Writes("65", 65, 10);
    }
    hide Writes;
    ReferenceIff(s, 0, 6);
    assert Utf8(65) == "A";
  }
}
