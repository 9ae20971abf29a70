/** The dictionary's notion of a letter: strings are bytes, and the first byte fixes the width of all letters. */
module Letters {
  /** Dictionary::CharLen: 1 for a byte below 0x80 (and for the empty string, whose c_str starts with NUL), 3 for one of
      0xE0 or above, -1 for the rest, which two-byte letters begin with. */
  function CharLen(c: string): (n: int)
    ensures n == 1 || n == 3 || n == -1
  {
    var first := if c == "" then 0 else (c[0] as int) % 0x100;
    if first < 0x80 then 1 else if first >= 0xE0 then 3 else -1
  }

  /** The whole letters of s, w bytes each; a shorter rest is dropped. */
  function Whole(s: string, w: nat): (r: seq<string>)
    requires w == 1 || w == 3
    ensures |r| == |s| / w
    decreases |s|
  {
    if |s| < w then [] else [s[..w]] + Whole(s[w..], w)
  }

  lemma {:induction false} WholeAt(s: string, w: nat, k: nat)
    requires (w == 1 || w == 3) && k < |Whole(s, w)|
    ensures k * w + w <= |s| && Whole(s, w)[k] == s[k * w..k * w + w]
    decreases |s|
  {
    if k > 0 {
      WholeAt(s[w..], w, k - 1);
      assert (k - 1) * w + w == k * w;
      assert s[w..][(k - 1) * w..k * w] == s[k * w..k * w + w];
    }
  }

  /** When the letters leave no rest, they determine the string. */
  lemma {:induction false} WholeInjective(s: string, t: string, w: nat)
    requires (w == 1 || w == 3) && |s| % w == 0 && |t| % w == 0 && Whole(s, w) == Whole(t, w)
    ensures s == t
    decreases |s|
  {
    if |s| >= w {
      WholeHead(s, w);
      WholeHead(t, w);
      WholeInjective(s[w..], t[w..], w);
      assert s == s[..w] + s[w..] && t == t[..w] + t[w..];
    }
  }

  lemma WholeHead(s: string, w: nat)
    requires (w == 1 || w == 3) && Whole(s, w) != []
    ensures w <= |s| && Whole(s, w)[0] == s[..w] && Whole(s, w)[1..] == Whole(s[w..], w)
  {
  }

  /** The pieces of s, w bytes each; the last may be shorter. */
  function Pieces(s: string, w: nat): (r: set<string>)
    requires w > 0
    decreases |s|
  {
    if |s| == 0 then {} else if |s| <= w then {s} else {s[..w]} + Pieces(s[w..], w)
  }
}
