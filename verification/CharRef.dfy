/** Numeric character references: XMLUtil::GetCharacterRef and XMLUtil::ConvertUTF32ToUTF8. */
module CharRef {
  import opened XmlText

  // ----- UTF-8 -----

  /** `(input | BYTE_MARK) & BYTE_MASK` cast to a byte; see TailBits. */
  function Tail(v: nat): nat { 0x80 + v % 0x40 }

  /** The bytes ConvertUTF32ToUTF8 leaves in its output buffer; none from 0x200000 on. */
  function Encode(v: nat): (r: seq<nat>)
    ensures |r| <= 4 && forall i :: 0 <= i < |r| ==> r[i] < 0x100
    ensures v < 0x80 ==> |r| == 1
  {
    if v < 0x80 then [v]
    else if v < 0x800 then [0xC0 + v / 0x40, Tail(v)]
    else if v < 0x10000 then [0xE0 + v / 0x1000, Tail(v / 0x40), Tail(v)]
    else if v < 0x200000 then [0xF0 + v / 0x40000, Tail(v / 0x1000), Tail(v / 0x40), Tail(v)]
    else []
  }

  /** The shifts and masks of the code, on machine words, are the quotients and remainders above. */
  lemma TailBits(v: bv32)
    requires v < 0x200000
    ensures ((v | 0x80) & 0xBF) & 0xFF == 0x80 + v % 0x40 && v >> 6 == v / 0x40
    ensures v < 0x20 ==> v | 0xC0 == 0xC0 + v
    ensures v < 0x10 ==> v | 0xE0 == 0xE0 + v
    ensures v < 0x08 ==> v | 0xF0 == 0xF0 + v
  {
  }

  predicate IsTail(b: nat) { 0x80 <= b < 0xC0 }

  /** The number that section 3 of RFC 3629 lays out over these bytes, in the shortest form for it, if they are one
      well-formed sequence. */
  function Decode(bytes: seq<nat>): Option<nat> {
    if |bytes| == 1 && bytes[0] < 0x80 then Some(bytes[0])
    else if |bytes| == 2 && 0xC0 <= bytes[0] < 0xE0 && IsTail(bytes[1]) then
      Shortest(0x80, (bytes[0] - 0xC0) * 0x40 + (bytes[1] - 0x80))
    else if |bytes| == 3 && 0xE0 <= bytes[0] < 0xF0 && IsTail(bytes[1]) && IsTail(bytes[2]) then
      Shortest(0x800, (bytes[0] - 0xE0) * 0x1000 + (bytes[1] - 0x80) * 0x40 + (bytes[2] - 0x80))
    else if |bytes| == 4 && 0xF0 <= bytes[0] < 0xF8 && IsTail(bytes[1]) && IsTail(bytes[2]) && IsTail(bytes[3]) then
      Shortest(0x10000,
        (bytes[0] - 0xF0) * 0x40000 + (bytes[1] - 0x80) * 0x1000 + (bytes[2] - 0x80) * 0x40 + (bytes[3] - 0x80))
    else None
  }

  function Shortest(least: nat, v: nat): Option<nat> { if v >= least then Some(v) else None }

  /** The bytes of a value decode to it, exactly for the values below 0x200000. */
  lemma Utf8RoundTrip(v: nat)
    ensures Decode(Encode(v)) == Some(v) <==> v < 0x200000
  {
    if 0x10000 <= v < 0x200000 {
      FourBytesJoin(v);
    } else if 0x800 <= v < 0x10000 {
      ThreeBytesJoin(v);
    }
  }

  lemma ThreeBytesJoin(v: nat)
    requires v < 0x10000
    ensures v / 0x1000 * 0x1000 + v / 0x40 % 0x40 * 0x40 + v % 0x40 == v && v / 0x1000 < 0x10
  {
    assert v / 0x40 / 0x40 == v / 0x1000;
  }

  lemma FourBytesJoin(v: nat)
    requires v < 0x200000
    ensures v / 0x40000 * 0x40000 + v / 0x1000 % 0x40 * 0x1000 + v / 0x40 % 0x40 * 0x40 + v % 0x40 == v
    ensures v / 0x40000 < 0x08
  {
    assert v / 0x1000 / 0x40 == v / 0x40000;
    assert v / 0x40 / 0x40 == v / 0x1000;
  }

  /** And every well-formed sequence is the bytes of the value it decodes to. */
  lemma Utf8Complete(bytes: seq<nat>)
    requires Decode(bytes).Some?
    ensures Decode(bytes).value < 0x200000 && Encode(Decode(bytes).value) == bytes
  {
    if |bytes| == 3 {
      ThreeBytes(bytes[0] - 0xE0, bytes[1] - 0x80, bytes[2] - 0x80);
    } else if |bytes| == 4 {
      FourBytes(bytes[0] - 0xF0, bytes[1] - 0x80, bytes[2] - 0x80, bytes[3] - 0x80);
    }
  }

  lemma ThreeBytes(a: nat, b: nat, c: nat)
    requires a < 0x10 && b < 0x40 && c < 0x40
    ensures var v := a * 0x1000 + b * 0x40 + c;
      v / 0x1000 == a && v / 0x40 % 0x40 == b && v % 0x40 == c && v < 0x10000
  {
  }

  lemma FourBytes(a: nat, b: nat, c: nat, d: nat)
    requires a < 0x08 && b < 0x40 && c < 0x40 && d < 0x40
    ensures var v := a * 0x40000 + b * 0x1000 + c * 0x40 + d;
      v / 0x40000 == a && v / 0x1000 % 0x40 == b && v / 0x40 % 0x40 == c && v % 0x40 == d && v < 0x200000
  {
    var v := a * 0x40000 + b * 0x1000 + c * 0x40 + d;
    assert v / 0x40 == a * 0x1000 + b * 0x40 + c;
    assert v / 0x1000 == a * 0x40 + b;
  }

  function Chars(bytes: seq<nat>): (r: string)
    requires forall i :: 0 <= i < |bytes| ==> bytes[i] < 0x100
    ensures |r| == |bytes|
  {
    seq(|bytes|, i requires 0 <= i < |bytes| => bytes[i] as char)
  }

  function Utf8(v: nat): (r: string)
    ensures |r| <= 4
    ensures v < 0x80 ==> |r| == 1
  {
    Chars(Encode(v))
  }

  // ----- GetCharacterRef -----

  /** What a character reference turns into: None when it is malformed, otherwise where the text goes on and the
      bytes that replace it. */
  datatype Ref = NoRef | Ref(next: nat, bytes: string)

  function DigitValue(c: char, base: nat): Option<nat> {
    if '0' <= c <= '9' then Some((c - '0') as nat)
    else if base == 16 && 'a' <= c <= 'f' then Some((c - 'a') as nat + 10)
    else if base == 16 && 'A' <= c <= 'F' then Some((c - 'A') as nat + 10)
    else None
  }

  const UINT: nat := 0x1_0000_0000
  const ULONG: nat := 0x1_0000_0000_0000_0000

  /** unsigned int multiplication and unsigned long addition */
  function MulU(a: nat, b: nat): nat { a * b % UINT }
  function AddU(a: nat, b: nat): nat { (a + b) % ULONG }

  /** The loop from the semicolon back to the marker character: `mult` and the scaled digit are unsigned int, the
      sum is unsigned long. None at a character that is no digit. */
  function Accumulate(s: string, q: nat, stop: nat, marker: char, base: nat, mult: nat, ucs: nat): Option<nat>
    requires stop <= q < |s| && s[stop] == marker
    decreases q
  {
    if s[q] == marker then Some(ucs)
    else
      match DigitValue(s[q], base)
      case None => None
      case Some(d) => Accumulate(s, q - 1, stop, marker, base, MulU(mult, base), AddU(ucs, MulU(mult, d)))
  }

  /** GetCharacterRef at an ampersand at p that a '#' follows. */
  function CharacterRef(s: string, p: nat): (r: Ref)
    requires Ch(s, p + 1) == '#'
    ensures r.Ref? ==> p < r.next <= |s| && |r.bytes| <= r.next - p
  {
    if Ch(s, p + 2) == NUL then Ref(p + 1, "")
    else if s[p + 2] == 'x' then Numeric(s, p, p + 2, 16)
    else Numeric(s, p, p + 1, 10)
  }

  function Numeric(s: string, p: nat, marker: nat, base: nat): (r: Ref)
    requires base > 0 && p < marker < |s|
    ensures r.Ref? ==> marker + 1 < r.next <= |s| && |r.bytes| <= r.next - p
  {
    if Ch(s, marker + 1) == NUL then NoRef
    else
      match FindChar(s, marker + 1, ';')
      case None => NoRef
      case Some(semi) => Convert(s, marker, base, semi)
  }

  function Convert(s: string, marker: nat, base: nat, semi: nat): (r: Ref)
    requires base > 0 && marker < semi < |s|
    ensures r.Ref? ==> r.next == semi + 1 && |r.bytes| <= (if semi == marker + 1 then 1 else 4)
  {
    match Accumulate(s, semi - 1, marker, s[marker], base, 1, 0)
    case None => NoRef
    case Some(ucs) => Ref(semi + 1, Utf8(ucs))
  }

  // ----- what a well-formed reference denotes -----

  function Digit(c: char, base: nat): nat { match DigitValue(c, base) case Some(d) => d case None => 0 }

  /** The characters lo..hi of s are digits. */
  predicate IsDigits(s: string, lo: nat, hi: nat, base: nat) {
    hi <= |s| && forall i :: lo <= i < hi ==> DigitValue(s[i], base).Some?
  }

  /** The number those digits stand for in positional notation. */
  function Positional(s: string, lo: nat, hi: nat, base: nat): nat
    requires hi <= |s|
  {
    if hi <= lo then 0 else Positional(s, lo, hi - 1, base) * base + Digit(s[hi - 1], base)
  }

  /** Each digit times the value of its place is below 2^32; `place` is the value of the last place. */
  predicate PlacesFit(s: string, lo: nat, hi: nat, base: nat, place: nat)
    requires hi <= |s|
  {
    lo < hi ==> place * Digit(s[hi - 1], base) < UINT && PlacesFit(s, lo, hi - 1, base, place * base)
  }

  /** The sum the loop is meant to form, from the last place to the first. */
  function Scaled(s: string, lo: nat, hi: nat, base: nat, place: nat): nat
    requires hi <= |s|
  {
    if hi <= lo then 0 else place * Digit(s[hi - 1], base) + Scaled(s, lo, hi - 1, base, place * base)
  }

  /** The same with each product cut to an unsigned int. */
  function Wrapped(s: string, lo: nat, hi: nat, base: nat, place: nat): nat
    requires hi <= |s|
  {
    if hi <= lo then 0 else MulU(place, Digit(s[hi - 1], base)) + Wrapped(s, lo, hi - 1, base, place * base)
  }

  lemma {:induction false} ScaledIsPositional(s: string, lo: nat, hi: nat, base: nat, place: nat)
    requires hi <= |s|
    ensures Scaled(s, lo, hi, base, place) == place * Positional(s, lo, hi, base)
  {
    if lo < hi {
      ScaledIsPositional(s, lo, hi - 1, base, place * base);
      Distribute(place, base, Positional(s, lo, hi - 1, base), Digit(s[hi - 1], base));
    }
  }

  lemma {:induction false} WrappedExact(s: string, lo: nat, hi: nat, base: nat, place: nat)
    requires hi <= |s|
    ensures Wrapped(s, lo, hi, base, place) <= Scaled(s, lo, hi, base, place)
    ensures Wrapped(s, lo, hi, base, place) == Scaled(s, lo, hi, base, place) <==> PlacesFit(s, lo, hi, base, place)
  {
    if lo < hi {
      MulUExact(place, Digit(s[hi - 1], base));
      WrappedExact(s, lo, hi - 1, base, place * base);
    }
  }

  lemma MulUExact(a: nat, b: nat)
    ensures MulU(a, b) <= a * b
    ensures MulU(a, b) == a * b <==> a * b < UINT
  {
  }

  lemma Distribute(place: nat, base: nat, high: nat, d: nat)
    ensures place * d + place * base * high == place * (high * base + d)
  {
    assert place * (high * base + d) == place * (high * base) + place * d;
  }

  lemma ModMul(a: nat, b: nat)
    ensures MulU(a % UINT, b) == MulU(a, b)
  {
    var q, r := a / UINT, a % UINT;
    Spread(q, r, b);
    WholeTurns(q * b, r * b);
  }

  lemma Spread(q: nat, r: nat, b: nat)
    ensures (q * UINT + r) * b == (q * b) * UINT + r * b
  {
  }

  lemma WholeTurns(k: nat, m: nat)
    ensures (k * UINT + m) % UINT == m % UINT
  {
  }

  lemma AddMod(a: nat, b: nat)
    ensures AddU(a % ULONG, b) == (a + b) % ULONG
  {
  }

  /** What the loop computes over a run of digits: their sum in wrapped arithmetic. */
  lemma {:induction false} AccumulateSums(s: string, q: nat, stop: nat, base: nat, place: nat, ucs: nat)
    requires stop <= q < |s| && DigitValue(s[stop], base).None? && IsDigits(s, stop + 1, q + 1, base)
    ensures Accumulate(s, q, stop, s[stop], base, place % UINT, ucs % ULONG)
         == Some((ucs + Wrapped(s, stop + 1, q + 1, base, place)) % ULONG)
    decreases q
  {
    if q > stop {
      var d := Digit(s[q], base);
      assert DigitValue(s[q], base) == Some(d);
      ModMul(place, base);
      ModMul(place, d);
      AddMod(ucs, MulU(place, d));
      var more := ucs + MulU(place, d);
      AccumulateSums(s, q - 1, stop, base, place * base, more);
      assert Accumulate(s, q, stop, s[stop], base, place % UINT, ucs % ULONG)
          == Accumulate(s, q - 1, stop, s[stop], base, place * base % UINT, more % ULONG);
      assert Wrapped(s, stop + 1, q + 1, base, place) == MulU(place, d) + Wrapped(s, stop + 1, q, base, place * base);
    }
  }

  /** The number GetCharacterRef takes a run of digits for. */
  function Ucs(s: string, lo: nat, hi: nat, base: nat): nat
    requires hi <= |s|
  {
    Wrapped(s, lo, hi, base, 1) % ULONG
  }

  /** It is the number the digits stand for exactly when every digit times its place is below 2^32 and the number
      itself is below 2^64. */
  lemma UcsIsPositional(s: string, lo: nat, hi: nat, base: nat)
    requires hi <= |s|
    ensures Ucs(s, lo, hi, base) == Positional(s, lo, hi, base)
      <==> PlacesFit(s, lo, hi, base, 1) && Positional(s, lo, hi, base) < ULONG
  {
    hide Scaled, Wrapped, Positional, PlacesFit;
    ScaledIsPositional(s, lo, hi, base, 1);
    assert Scaled(s, lo, hi, base, 1) == Positional(s, lo, hi, base);
    WrappedExact(s, lo, hi, base, 1);
  }

  /** A reference of digits closed by a semicolon becomes the UTF-8 bytes of that number. */
  lemma ReferenceDenotes(s: string, p: nat, marker: nat, base: nat, semi: nat)
    requires p < marker < semi < |s| && base > 0 && DigitValue(s[marker], base).None?
    requires s[semi] == ';' && IsDigits(s, marker + 1, semi, base)
    ensures Numeric(s, p, marker, base) == Ref(semi + 1, Utf8(Ucs(s, marker + 1, semi, base)))
  {
    SemicolonFound(s, marker + 1, base, semi);
    DigitsSum(s, marker, base, semi);
    ConvertDenotes(s, p, marker, base, semi, Ucs(s, marker + 1, semi, base));
  }

  lemma ConvertDenotes(s: string, p: nat, marker: nat, base: nat, semi: nat, ucs: nat)
    requires p < marker < semi < |s| && base > 0 && Ch(s, marker + 1) != NUL
    requires FindChar(s, marker + 1, ';') == Some(semi)
    requires Accumulate(s, semi - 1, marker, s[marker], base, 1, 0) == Some(ucs)
    ensures Numeric(s, p, marker, base) == Ref(semi + 1, Utf8(ucs))
  {
  }

  lemma DigitsSum(s: string, marker: nat, base: nat, semi: nat)
    requires marker < semi < |s| && base > 0 && DigitValue(s[marker], base).None?
    requires IsDigits(s, marker + 1, semi, base)
    ensures Accumulate(s, semi - 1, marker, s[marker], base, 1, 0) == Some(Ucs(s, marker + 1, semi, base))
  {
    assert 1 % UINT == 1 && 0 % ULONG == 0;
    AccumulateSums(s, semi - 1, marker, base, 1, 0);
  }

  lemma {:induction false} SemicolonFound(s: string, lo: nat, base: nat, semi: nat)
    requires lo <= semi < |s| && s[semi] == ';' && IsDigits(s, lo, semi, base)
    ensures FindChar(s, lo, ';') == Some(semi)
    decreases semi - lo
  {
    if lo < semi {
      assert DigitValue(s[lo], base).Some?;
      SemicolonFound(s, lo + 1, base, semi);
    }
  }

  /** A reference that does not fit: "&#x100000041;" comes out as the letter A. */
  lemma OverflowingReference()
    ensures CharacterRef("&#x100000041;", 0) == Ref(13, "A")
  {
    var s := "&#x100000041;";
    assert s[2] == 'x' && s[3] == '1' && s[4] == '0' && s[5] == '0' && s[6] == '0' && s[7] == '0' && s[8] == '0'
        && s[9] == '0' && s[10] == '4' && s[11] == '1' && s[12] == ';';
    assert IsDigits(s, 3, 12, 16);
    ReferenceDenotes(s, 0, 2, 16, 12);
    WrappedTop(s, 3, 12);
    assert Utf8(0x41) == "A";
  }

  lemma WrappedTop(s: string, lo: nat, hi: nat)
    requires hi == lo + 9 && hi <= |s|
    requires s[lo] == '1' && s[hi - 2] == '4' && s[hi - 1] == '1' && forall i :: lo < i < hi - 2 ==> s[i] == '0'
    ensures Ucs(s, lo, hi, 16) == 0x41
  {
    WrappedZeros(s, lo, hi - 2, 0x100);
    assert Wrapped(s, lo, hi - 1, 16, 0x10) == 0x40;
  }

  lemma WrappedZeros(s: string, lo: nat, hi: nat, place: nat)
    requires lo + 1 <= hi <= |s| && s[lo] == '1' && forall i :: lo < i < hi ==> s[i] == '0'
    requires hi == lo + 7 && place == 0x100
    ensures Wrapped(s, lo, hi, 16, place) == 0
  {
    assert Wrapped(s, lo, lo, 16, 0x10_0000_0000) == 0;
    assert Wrapped(s, lo, lo + 1, 16, 0x1_0000_0000) == 0;
    assert Wrapped(s, lo, lo + 2, 16, 0x1000_0000) == 0;
    assert Wrapped(s, lo, lo + 3, 16, 0x100_0000) == 0;
    assert Wrapped(s, lo, lo + 4, 16, 0x10_0000) == 0;
    assert Wrapped(s, lo, lo + 5, 16, 0x1_0000) == 0;
    assert Wrapped(s, lo, lo + 6, 16, 0x1000) == 0;
  }
}
