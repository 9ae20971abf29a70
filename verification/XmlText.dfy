/** Character classes and the scanning primitives of the XML library. A buffer is a sequence of chars that stand
    for bytes; reading at or past its end gives NUL, as the terminator of the C string does. */
module XmlText {
  const NUL: char := '\0'
  const LF: char := '\n'
  const CR: char := '\r'

  function Ch(s: string, p: nat): char { if p < |s| then s[p] else NUL }

  /** strncmp(s + p, lit, |lit|) == 0 */
  predicate At(s: string, p: nat, lit: string) { forall i :: 0 <= i < |lit| ==> Ch(s, p + i) == lit[i] }

  lemma AtParts(s: string, p: nat, a: string, b: string)
    requires At(s, p, a + b)
    ensures At(s, p, a) && At(s, p + |a|, b)
  {
    forall i | 0 <= i < |a| ensures Ch(s, p + i) == a[i] { assert (a + b)[i] == a[i]; }
    forall i | 0 <= i < |b| ensures Ch(s, p + |a| + i) == b[i] { assert (a + b)[|a| + i] == b[i]; }
  }

  lemma AtHead(s: string, p: nat, lit: string)
    requires At(s, p, lit) && lit != ""
    ensures Ch(s, p) == lit[0]
  {
    assert Ch(s, p) == Ch(s, p + 0);
  }

  predicate NoNul(s: string) { forall i :: 0 <= i < |s| ==> s[i] != NUL }

  lemma AtChar(s: string, p: nat, c: char)
    ensures At(s, p, [c]) <==> Ch(s, p) == c
  {
    assert Ch(s, p) == Ch(s, p + 0) && [c][0] == c;
  }

  /** A byte of 128 or more is never white space, whatever the locale. */
  predicate IsWhiteSpace(c: char) {
    c == ' ' || c == '\t' || c == LF || c == '\U{0B}' || c == '\U{0C}' || c == CR
  }

  predicate IsNameStartChar(c: char) {
    c as int >= 128 || 'a' <= c <= 'z' || 'A' <= c <= 'Z' || c == ':' || c == '_'
  }

  predicate IsNameChar(c: char) { IsNameStartChar(c) || '0' <= c <= '9' || c == '.' || c == '-' }

  /** The first position from p on that does not hold white space. */
  function SkipWhiteSpace(s: string, p: nat): (q: nat)
    requires p <= |s|
    ensures p <= q <= |s| && !IsWhiteSpace(Ch(s, q))
    ensures forall i :: p <= i < q ==> IsWhiteSpace(s[i])
    decreases |s| - p
  {
    if IsWhiteSpace(Ch(s, p)) then SkipWhiteSpace(s, p + 1) else p
  }

  /** The first position from p on that does not hold a name character. */
  function NameEnd(s: string, p: nat): (q: nat)
    requires p <= |s|
    ensures p <= q <= |s| && !IsNameChar(Ch(s, q))
    ensures forall i :: p <= i < q ==> IsNameChar(s[i])
    decreases |s| - p
  {
    if IsNameChar(Ch(s, p)) then NameEnd(s, p + 1) else p
  }

  datatype Option<+T> = None | Some(value: T)

  /** strchr: the first c from p on, before any NUL. */
  function FindChar(s: string, p: nat, c: char): (r: Option<nat>)
    requires p <= |s|
    ensures r.Some? ==> p <= r.value < |s| && s[r.value] == c
    decreases |s| - p
  {
    if Ch(s, p) == NUL then None else if s[p] == c then Some(p) else FindChar(s, p + 1, c)
  }

  /** The first occurrence of the end tag from p on, before any NUL: where ParseText ends its segment. */
  function FindEnd(s: string, p: nat, endTag: string): (r: Option<nat>)
    requires p <= |s| && endTag != "" && NoNul(endTag)
    ensures r.Some? ==> p <= r.value && r.value + |endTag| <= |s| && At(s, r.value, endTag)
    ensures r.Some? ==> forall i :: p <= i < r.value ==> !At(s, i, endTag) && s[i] != NUL
    decreases |s| - p
  {
    if Ch(s, p) == NUL then None
    else if At(s, p, endTag) then AtFits(s, p, endTag); Some(p)
    else FindEnd(s, p + 1, endTag)
  }

  /** An occurrence of the end tag with no NUL before it is not missed. */
  lemma {:induction false} FindEndFinds(s: string, p: nat, endTag: string, e: nat)
    requires p <= e <= |s| && endTag != "" && NoNul(endTag)
    requires At(s, e, endTag) && forall i :: p <= i < e ==> s[i] != NUL
    ensures FindEnd(s, p, endTag).Some? && FindEnd(s, p, endTag).value <= e
    decreases e - p
  {
    assert Ch(s, e + 0) == endTag[0];
    FindEndStep(s, p, endTag);
    hide At, NoNul, FindEnd;
    if p < e { FindEndFinds(s, p + 1, endTag, e); }
  }

  lemma FindEndStep(s: string, p: nat, endTag: string)
    requires p < |s| && s[p] != NUL && endTag != "" && NoNul(endTag)
    ensures FindEnd(s, p, endTag) == if At(s, p, endTag) then Some(p) else FindEnd(s, p + 1, endTag)
  {
    hide At;
  }

  lemma AtFits(s: string, p: nat, lit: string)
    requires At(s, p, lit) && NoNul(lit) && p <= |s|
    ensures p + |lit| <= |s|
  {
    if lit != "" {
      assert Ch(s, p + (|lit| - 1)) == lit[|lit| - 1];
    }
  }

  /** The C string that starts at p. */
  function CStr(s: string, p: nat): string
    decreases |s| - p
  {
    if Ch(s, p) == NUL then "" else [s[p]] + CStr(s, p + 1)
  }

  /** A text as a C string: a character reference to NUL cuts it short. */
  function UpToNul(t: string): string { CStr(t, 0) }
}
